/** `exec_match` and `exec_search`: one interface over both tiers. */
module Exec {
  import opened Nfa
  import Tier1
  import Tier2

  datatype Tier = First | Second

  datatype Outcome = Mismatch | Match(start: nat, end: nat)

  /** The group positions a caller asks for; entry 0 is the whole match. */
  class Captures {
    const begins: array<int>
    const ends: array<int>

    constructor (count: nat)
      requires count >= 1
      ensures Usable() && begins.Length == count && fresh(begins) && fresh(ends)
    {
      begins := new int[count];
      ends := new int[count];
    }

    predicate Usable() {
      1 <= begins.Length == ends.Length && begins != ends
    }
  }

  function Arrays(caps: Captures?): set<object> {
    if caps == null then {} else {caps.begins, caps.ends}
  }

  /** What the second tier needs beyond a valid automaton. */
  ghost predicate Usable(a: Automaton, text: Text, from: nat, tier: Tier) {
    Valid(a) && (tier.Second? ==> Tier2.OneAccept(a) && Tier2.NoCycles(a, text, from))
  }

  /** The outcome of an anchored match: the longest one, or none. */
  ghost predicate Answers(a: Automaton, text: Text, from: nat, r: Outcome) {
    match r
    case Mismatch => forall e: nat :: !Matches(a, text, from, e)
    case Match(start, end) =>
      start == from && Matches(a, text, from, end) && forall e: nat :: Matches(a, text, from, e) ==> e <= end
  }

  function Register(regs: Tier2.Registers, k: nat): int {
    if k < |regs| then regs[k] else -1
  }

  /** The captures of groups 1 and up are the saves of one accepting run that ends where the
      match does, and that wins over the others. */
  ghost predicate Groups(a: Automaton, text: Text, from: nat, end: nat, begins: seq<int>, ends: seq<int>, saves: nat) {
    exists p :: Tier2.Winner(a, text, from, end, p, saves) &&
      forall i :: 1 <= i < |begins| && i < |ends| ==>
        && begins[i] == Register(Tier2.SavesOf(a, p, saves), 2 * i)
        && ends[i] == Register(Tier2.SavesOf(a, p, saves), 2 * i + 1)
  }

  /** No position before `pos` has a match. */
  ghost predicate NoneBefore(a: Automaton, text: Text, from: nat, pos: nat) {
    forall q: nat, e: nat :: from <= q < pos && q <= |text| ==> !Matches(a, text, q, e)
  }

  /** Both tiers give the one possible answer, so they agree on any automaton both can run. */
  lemma TiersAgree(a: Automaton, text: Text, from: nat, r: Outcome, s: Outcome)
    requires Answers(a, text, from, r) && Answers(a, text, from, s)
    ensures r == s
  {
  }

  /** An attempt to match at `pos`. */
  method ExecMatch(a: Automaton, tier: Tier, saves: nat, text: Text, pos: nat, caps: Captures?) returns (r: Outcome)
    requires pos <= |text| && Usable(a, text, pos, tier) && saves != 1
    requires caps != null ==> caps.Usable()
    modifies Arrays(caps)
    ensures Answers(a, text, pos, r)
    ensures r.Match? && caps != null ==> caps.begins[0] == pos && caps.ends[0] == r.end
    ensures r.Match? && tier.Second? && caps != null ==>
      Groups(a, text, pos, r.end, caps.begins[..], caps.ends[..], if saves == 0 then 2 else saves)
  {
    hide Matches, Valid;
    if tier.First? {
      var found, end := Tier1.RunTier1(a, text, pos);
      if !found {
        return Mismatch;
      }
      if caps != null {
        caps.begins[0], caps.ends[0] := pos, end;
      }
      return Match(pos, end);
    }
    var n := if saves == 0 then 2 else saves;
    var found, regs := Tier2.RunTier2(a, text, pos, n);
    if !found {
      return Mismatch;
    }
    MatchedAt(a, text, pos, regs);
    r := Match(pos, regs[1]);
    if caps != null {
      CopyGroups(regs, caps);
      GroupsOf(a, text, pos, regs, caps.begins[..], caps.ends[..]);
    }
  }

  lemma MatchedAt(a: Automaton, text: Text, from: nat, regs: Tier2.Registers)
    requires Tier2.RegistersOf(a, text, from, regs)
    ensures Matches(a, text, from, regs[1])
  {
  }

  method CopyGroups(regs: Tier2.Registers, caps: Captures)
    requires |regs| >= 2 && caps.Usable()
    modifies caps.begins, caps.ends
    ensures forall i :: 0 <= i < caps.begins.Length ==> caps.begins[i] == Register(regs, 2 * i)
    ensures forall i :: 0 <= i < caps.ends.Length ==> caps.ends[i] == Register(regs, 2 * i + 1)
  {
    caps.begins[0], caps.ends[0] := regs[0], regs[1];
    var i := 0;
    while i < caps.begins.Length - 1
      invariant i <= caps.begins.Length - 1
      invariant forall k :: 0 <= k <= i ==> caps.begins[k] == Register(regs, 2 * k)
      invariant forall k :: 0 <= k <= i ==> caps.ends[k] == Register(regs, 2 * k + 1)
    {
      var s := 2 * (i + 1);
      var e := s + 1;
      caps.begins[i + 1] := if s < |regs| then regs[s] else -1;
      caps.ends[i + 1] := if e < |regs| then regs[e] else -1;
      i := i + 1;
    }
  }

  lemma GroupsOf(a: Automaton, text: Text, from: nat, regs: Tier2.Registers, begins: seq<int>, ends: seq<int>)
    requires Tier2.RegistersOf(a, text, from, regs)
    requires forall i :: 0 <= i < |begins| ==> begins[i] == Register(regs, 2 * i)
    requires forall i :: 0 <= i < |ends| ==> ends[i] == Register(regs, 2 * i + 1)
    ensures Groups(a, text, from, regs[1], begins, ends, |regs|)
  {
    var p :| Tier2.Winner(a, text, from, regs[1], p, |regs|) &&
             forall i :: 2 <= i < |regs| ==> regs[i] == Tier2.SavesOf(a, p, |regs|)[i];
  }

  /** The leftmost position from `from` on where there is a match, with its longest match. */
  method ExecSearch(a: Automaton, tier: Tier, saves: nat, text: Text, from: nat, caps: Captures?) returns (r: Outcome)
    requires saves != 1 && forall pos: nat :: from <= pos <= |text| && NoneBefore(a, text, from, pos) ==>
      Usable(a, text, pos, tier)
    requires caps != null ==> caps.Usable()
    modifies Arrays(caps)
    ensures r.Mismatch? ==> forall pos: nat, e: nat :: from <= pos <= |text| ==> !Matches(a, text, pos, e)
    ensures r.Match? ==> from <= r.start <= |text| && Answers(a, text, r.start, r)
    ensures r.Match? ==> forall pos: nat, e: nat :: from <= pos < r.start ==> !Matches(a, text, pos, e)
    ensures r.Match? && caps != null ==> caps.begins[0] == r.start && caps.ends[0] == r.end
    ensures r.Match? && tier.Second? && caps != null ==>
      Groups(a, text, r.start, r.end, caps.begins[..], caps.ends[..], if saves == 0 then 2 else saves)
  {
    hide Matches, Groups, Valid;
    var pos := from;
    while pos <= |text|
      invariant from <= pos && (pos <= |text| || pos == from)
      invariant NoneBefore(a, text, from, pos)
      decreases |text| + 1 - pos
    {
      r := ExecMatch(a, tier, saves, text, pos, caps);
      if r.Match? {
        return;
      }
      if pos >= |text| {
        break;
      }
      pos := pos + 1;
    }
    r := Mismatch;
  }
}
