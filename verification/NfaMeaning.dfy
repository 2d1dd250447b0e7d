/** What anchors, character classes and moves of an automaton mean, told by stretches and pieces of
    the text and by sets of bytes. */
module NfaMeaning {
  import opened Wrappers
  import opened Nfa
  import opened Positional
  import opened Words
  import opened Bits
  import Tier2

  // ---------------------------------------------------------------------------------
  // Sets of bytes.

  type Range = (nat, nat)

  /** The bytes from `r.0` to `r.1`, both included, for one of the ranges. */
  predicate Within(rs: seq<Range>, b: nat) {
    exists i :: 0 <= i < |rs| && rs[i].0 <= b <= rs[i].1
  }

  /** The ASCII bytes of each type. */
  function RangesOf(t: CharType): seq<Range> {
    match t
    case Word => [('0' as nat, '9' as nat), ('A' as nat, 'Z' as nat), ('_' as nat, '_' as nat), ('a' as nat, 'z' as nat)]
    case Digit => [('0' as nat, '9' as nat)]
    case Space => [('\t' as nat, '\r' as nat), (' ' as nat, ' ' as nat)]
    case Upper => [('A' as nat, 'Z' as nat)]
    case Lower => [('a' as nat, 'z' as nat)]
    case Alpha => [('A' as nat, 'Z' as nat), ('a' as nat, 'z' as nat)]
    case Alnum => [('0' as nat, '9' as nat), ('A' as nat, 'Z' as nat), ('a' as nat, 'z' as nat)]
    case Print => [(' ' as nat, '~' as nat)]
    case Punct => [('!' as nat, '/' as nat), (':' as nat, '@' as nat), ('[' as nat, '`' as nat), ('{' as nat, '~' as nat)]
    case Cntrl => [(0, 31), (127, 127)]
    case Xdigit => [('0' as nat, '9' as nat), ('A' as nat, 'F' as nat), ('a' as nat, 'f' as nat)]
    case Unknown => []
  }

  lemma TypeMeans(t: CharType, b: Byte)
    ensures HasType(t, b) <==> Within(RangesOf(t), b)
  {
    var rs := RangesOf(t);
    assert |rs| > 0 ==> Within(rs, b) || !(rs[0].0 <= b <= rs[0].1);
    assert |rs| > 1 ==> Within(rs, b) || !(rs[1].0 <= b <= rs[1].1);
    assert |rs| > 2 ==> Within(rs, b) || !(rs[2].0 <= b <= rs[2].1);
    assert |rs| > 3 ==> Within(rs, b) || !(rs[3].0 <= b <= rs[3].1);
  }

  /** A class has a table of 256 bits. */
  predicate HasTable(k: Kind) {
    k.CharClass? ==> |k.bitmap| == 8 && Digits(WORD, k.bitmap)
  }

  /** The bytes a state takes. Byte `b` is in a class when bit `b` of its table is set, the table read
      as one number with the least significant word first. */
  ghost predicate Takes(k: Kind, b: Byte) {
    match k
    case Char(c) => b == c
    case CharClass(bitmap, negative) => if negative then !Bit(Bin(bitmap), b) else Bit(Bin(bitmap), b)
    case Any => b != '\n' as nat
    case AnyMultiline => true
    case CType(t, negative) => if negative then !Within(RangesOf(t), b) else Within(RangesOf(t), b)
    case _ => false
  }

  lemma ByteMeans(k: Kind, b: Byte)
    requires HasTable(k)
    ensures MatchesByte(k, b) <==> Takes(k, b)
  {
    hide Bit, HasType, Within, RangesOf, Bin;
    match k
    case CharClass(bitmap, _) =>
      assert 32 * (b / 32) + b % 32 == b;
      BinBit(bitmap, b / 32, b % 32);
    case CType(t, _) => TypeMeans(t, b);
    case _ =>
  }

  // ---------------------------------------------------------------------------------
  // Anchors.

  /** From `a` to `b` there are word bytes only, and none on either side. */
  ghost predicate WordStretch(text: Text, a: nat, b: nat) {
    && a < b <= |text| && (forall i :: a <= i < b ==> Within(RangesOf(Word), text[i]))
    && (a > 0 ==> !Within(RangesOf(Word), text[a - 1])) && (b < |text| ==> !Within(RangesOf(Word), text[b]))
  }

  /** One of the pieces between the newlines of the text. */
  ghost predicate Piece(text: Text, a: nat, b: nat) {
    && a <= b <= |text| && (forall i :: a <= i < b ==> text[i] != '\n' as nat)
    && (a > 0 ==> text[a - 1] == '\n' as nat) && (b < |text| ==> text[b] == '\n' as nat)
  }

  ghost predicate StretchStarts(text: Text, pos: nat) {
    exists b: nat :: WordStretch(text, pos, b)
  }

  ghost predicate StretchEnds(text: Text, pos: nat) {
    exists a: nat :: WordStretch(text, a, pos)
  }

  ghost predicate PieceStarts(text: Text, pos: nat) {
    exists b: nat :: Piece(text, pos, b)
  }

  ghost predicate PieceEnds(text: Text, pos: nat) {
    exists a: nat :: Piece(text, a, pos)
  }

  /** What an anchor asks of a position. */
  ghost predicate Asks(which: AnchorType, text: Text, pos: nat)
    requires pos <= |text|
  {
    match which
    case BeginText => text[..pos] == []
    case EndText => text[pos..] == []
    case SemiEndText => text[pos..] == [] || text[pos..] == ['\n' as nat]
    case BeginLine => PieceStarts(text, pos)
    case EndLine => PieceEnds(text, pos)
    case SearchStart => true
    case WordBoundary => StretchStarts(text, pos) || StretchEnds(text, pos)
    case NotWordBoundary => !StretchStarts(text, pos) && !StretchEnds(text, pos)
  }

  lemma WordRanges(b: Byte)
    ensures IsWord(b) <==> Within(RangesOf(Word), b)
  {
    TypeMeans(Word, b);
  }

  lemma {:induction false} StretchFrom(text: Text, pos: nat, end: nat) returns (b: nat)
    requires pos < end <= |text| && (forall i :: pos <= i < end ==> Within(RangesOf(Word), text[i]))
    requires pos > 0 ==> !Within(RangesOf(Word), text[pos - 1])
    ensures WordStretch(text, pos, b)
    decreases |text| - end
  {
    hide Within, RangesOf;
    if end < |text| && Within(RangesOf(Word), text[end]) {
      b := StretchFrom(text, pos, end + 1);
    } else {
      b := end;
    }
  }

  lemma {:induction false} StretchTo(text: Text, start: nat, pos: nat) returns (a: nat)
    requires start < pos <= |text| && (forall i :: start <= i < pos ==> Within(RangesOf(Word), text[i]))
    requires pos < |text| ==> !Within(RangesOf(Word), text[pos])
    ensures WordStretch(text, a, pos)
    decreases start
  {
    hide Within, RangesOf;
    if start > 0 && Within(RangesOf(Word), text[start - 1]) {
      a := StretchTo(text, start - 1, pos);
    } else {
      a := start;
    }
  }

  /** A stretch of word bytes starts or ends exactly where one side is a word byte and the other is
      not. */
  lemma StretchMeans(text: Text, pos: nat)
    requires pos <= |text|
    ensures StretchStarts(text, pos) <==> WordAt(text, pos) && !(pos > 0 && WordAt(text, pos - 1))
    ensures StretchEnds(text, pos) <==> pos > 0 && WordAt(text, pos - 1) && !WordAt(text, pos)
  {
    hide Within, RangesOf, IsWord;
    if pos < |text| {
      WordRanges(text[pos]);
    }
    if pos > 0 {
      WordRanges(text[pos - 1]);
    }
    if WordAt(text, pos) && !(pos > 0 && WordAt(text, pos - 1)) {
      var b := StretchFrom(text, pos, pos + 1);
    }
    if pos > 0 && WordAt(text, pos - 1) && !WordAt(text, pos) {
      var a := StretchTo(text, pos - 1, pos);
    }
  }

  lemma {:induction false} PieceFrom(text: Text, pos: nat, end: nat) returns (b: nat)
    requires pos <= end <= |text| && (forall i :: pos <= i < end ==> text[i] != '\n' as nat)
    requires pos > 0 ==> text[pos - 1] == '\n' as nat
    ensures Piece(text, pos, b)
    decreases |text| - end
  {
    if end < |text| && text[end] != '\n' as nat {
      b := PieceFrom(text, pos, end + 1);
    } else {
      b := end;
    }
  }

  lemma {:induction false} PieceTo(text: Text, start: nat, pos: nat) returns (a: nat)
    requires start <= pos <= |text| && (forall i :: start <= i < pos ==> text[i] != '\n' as nat)
    requires pos < |text| ==> text[pos] == '\n' as nat
    ensures Piece(text, a, pos)
    decreases start
  {
    if start > 0 && text[start - 1] != '\n' as nat {
      a := PieceTo(text, start - 1, pos);
    } else {
      a := start;
    }
  }

  /** A piece starts exactly after a newline and at the start, and ends exactly before one and at the
      end. */
  lemma PieceMeans(text: Text, pos: nat)
    requires pos <= |text|
    ensures PieceStarts(text, pos) <==> pos == 0 || text[pos - 1] == NEWLINE
    ensures PieceEnds(text, pos) <==> pos == |text| || text[pos] == NEWLINE
  {
    if pos == 0 || text[pos - 1] == NEWLINE {
      var b := PieceFrom(text, pos, pos);
    }
    if pos == |text| || text[pos] == NEWLINE {
      var a := PieceTo(text, pos, pos);
    }
  }

  /** An anchor holds exactly where the text has what it asks for. */
  lemma AnchorMeans(which: AnchorType, text: Text, pos: nat)
    requires pos <= |text|
    ensures AnchorHolds(which, text, pos) <==> Asks(which, text, pos)
  {
    hide StretchStarts, StretchEnds, PieceStarts, PieceEnds, WordAt;
    StretchMeans(text, pos);
    PieceMeans(text, pos);
  }

  // ---------------------------------------------------------------------------------
  // Moves.

  /** One move of an automaton, by the kind of the state: a split, a save and an anchor that is
      satisfied go on at the same position, and any other state takes one byte. */
  ghost predicate Goes(a: Automaton, text: Text, c: Config, d: Config) {
    && c.state < |a.states| && c.pos <= |text|
    && var s := a.states[c.state];
       match s.kind
       case Split => d.pos == c.pos && (s.out1 == Some(d.state) || s.out2 == Some(d.state))
       case Save(_) => d.pos == c.pos && s.out1 == Some(d.state)
       case Anchor(which) => d.pos == c.pos && Asks(which, text, c.pos) && s.out1 == Some(d.state)
       case _ => c.pos < |text| && Takes(s.kind, text[c.pos]) && d.pos == c.pos + 1 && s.out1 == Some(d.state)
  }

  predicate HasTables(a: Automaton) {
    forall s :: 0 <= s < |a.states| ==> HasTable(a.states[s].kind)
  }

  lemma MoveMeans(a: Automaton, text: Text, c: Config, d: Config)
    requires HasTables(a)
    ensures Move(a, text, c, d) <==> Goes(a, text, c, d)
  {
    hide AnchorHolds, Asks, MatchesByte, Takes;
    if c.state < |a.states| && c.pos <= |text| {
      var k := a.states[c.state].kind;
      if k.Anchor? {
        AnchorMeans(k.which, text, c.pos);
      }
      if c.pos < |text| {
        ByteMeans(k, text[c.pos]);
        SilentTakes(k, text[c.pos]);
      }
    }
  }

  lemma SilentTakes(k: Kind, b: Byte)
    ensures !Stops(k) ==> !MatchesByte(k, b)
  {
  }

  /** Each entry follows from the one before by such a move. */
  ghost predicate Steps(a: Automaton, text: Text, p: seq<Config>) {
    forall i :: 0 <= i < |p| - 1 ==> Goes(a, text, p[i], p[i + 1])
  }

  /** A walk by such moves from the start state at `from` to an accepting state at `end`. */
  ghost predicate Accepted(a: Automaton, text: Text, from: nat, end: nat, p: seq<Config>) {
    && |p| > 0 && a.start < |a.states| && p[0] == Config(a.start, from)
    && Steps(a, text, p)
    && Last(p).pos == end && Last(p).state < |a.states| && a.states[Last(p).state].kind.Accept?
  }

  lemma {:induction false} RunMeans(a: Automaton, text: Text, p: seq<Config>, c: Config)
    requires HasTables(a) && c.state < |a.states| && c.pos <= |text|
    ensures IsRun(a, text, p, c) <==> |p| > 0 && p[0] == c && Steps(a, text, p)
    decreases |p|
  {
    hide Move, Goes, HasTables;
    if |p| > 1 {
      var n := |p| - 1;
      RunMeans(a, text, p[..n], c);
      MoveMeans(a, text, p[n - 1], p[n]);
      StepsSplit(a, text, p);
    }
  }

  lemma StepsSplit(a: Automaton, text: Text, p: seq<Config>)
    requires |p| > 1
    ensures Steps(a, text, p) <==> Steps(a, text, p[..|p| - 1]) && Goes(a, text, p[|p| - 2], p[|p| - 1])
  {
    hide Goes;
    var q := p[..|p| - 1];
    if Steps(a, text, q) && Goes(a, text, p[|p| - 2], p[|p| - 1]) {
      forall i | 0 <= i < |p| - 1
        ensures Goes(a, text, p[i], p[i + 1])
      {
        assert i < |p| - 2 ==> Goes(a, text, q[i], q[i + 1]);
      }
    }
    if Steps(a, text, p) {
      forall i | 0 <= i < |q| - 1
        ensures Goes(a, text, q[i], q[i + 1])
      {
        assert Goes(a, text, p[i], p[i + 1]);
      }
    }
  }

  /** There is a match exactly when there is such a walk. */
  lemma MatchMeans(a: Automaton, text: Text, from: nat, end: nat)
    requires Valid(a) && HasTables(a) && from <= |text|
    ensures Matches(a, text, from, end) <==> exists p :: Accepted(a, text, from, end, p)
  {
    hide HasTables, Goes, Move, IsRun;
    var c := Config(a.start, from);
    forall p
      ensures IsMatch(a, text, from, end, p) <==> Accepted(a, text, from, end, p)
    {
      RunMeans(a, text, p, c);
    }
  }

  // ---------------------------------------------------------------------------------
  // What a run saves.

  /** Configuration `k` of the run saves its position in register `i`. */
  predicate SavesIn(a: Automaton, p: seq<Config>, k: nat, i: nat) {
    k < |p| && p[k].state < |a.states| && a.states[p[k].state].kind == Save(i)
  }

  ghost predicate LastSave(a: Automaton, p: seq<Config>, k: nat, i: nat) {
    SavesIn(a, p, k, i) && forall j: nat :: k < j < |p| ==> !SavesIn(a, p, j, i)
  }

  /** A register holds where the run last saved in it, and -1 if it never did. */
  lemma {:induction false} SavesMean(a: Automaton, p: seq<Config>, n: nat, i: nat)
    requires i < n
    ensures var r := Tier2.SavesOf(a, p, n)[i];
            && (forall k: nat :: LastSave(a, p, k, i) ==> r == p[k].pos)
            && ((forall k: nat :: !SavesIn(a, p, k, i)) ==> r == -1)
    decreases |p|
  {
    if p != [] {
      var q := p[..|p| - 1];
      SavesMean(a, q, n, i);
      if !SavesIn(a, p, |p| - 1, i) {
        forall k: nat | LastSave(a, p, k, i)
          ensures LastSave(a, q, k, i) && q[k] == p[k]
        {
          SavedSooner(a, p, k, i);
        }
        forall k: nat
          ensures SavesIn(a, q, k, i) ==> SavesIn(a, p, k, i)
        {
        }
      }
    }
  }

  lemma SavedSooner(a: Automaton, p: seq<Config>, k: nat, i: nat)
    requires p != [] && LastSave(a, p, k, i) && !SavesIn(a, p, |p| - 1, i)
    ensures k < |p| - 1 && LastSave(a, p[..|p| - 1], k, i)
  {
    var q := p[..|p| - 1];
    forall j: nat | k < j < |q|
      ensures !SavesIn(a, q, j, i)
    {
      assert !SavesIn(a, p, j, i);
    }
  }
}
