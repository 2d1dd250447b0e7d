/** Applying replacements to a text: all of them refer to the text as it was. */
module Splice {
  /** The text from `from` up to `to` is replaced. */
  datatype Span = Span(from: nat, to: nat, text: string)

  function Max(a: nat, b: nat): nat {
    if a < b then b else a
  }

  /** The spans start at or after `from`, lie in a text of length `n`, do not overlap, and no
      two of them start at one place. */
  predicate Ordered(es: seq<Span>, from: nat, n: nat) {
    if es == [] then from <= n
    else from <= es[0].from <= es[0].to <= n && Ordered(es[1..], Max(es[0].to, es[0].from + 1), n)
  }

  lemma OrderedFrom(es: seq<Span>, from: nat, less: nat, n: nat)
    requires Ordered(es, from, n) && less <= from
    ensures Ordered(es, less, n)
  {
  }

  /** The text from `from` on, with the replacements made. */
  function Splice(text: string, es: seq<Span>, from: nat): string
    requires Ordered(es, from, |text|)
  {
    if es == [] then text[from..]
    else
      OrderedFrom(es[1..], Max(es[0].to, es[0].from + 1), es[0].to, |text|);
      text[from..es[0].from] + es[0].text + Splice(text, es[1..], es[0].to)
  }

  lemma SpliceStep(text: string, es: seq<Span>, from: nat)
    requires Ordered(es, from, |text|) && es != []
    ensures from <= es[0].from <= es[0].to <= |text| && Ordered(es[1..], es[0].to, |text|)
    ensures Splice(text, es, from) == text[from..es[0].from] + es[0].text + Splice(text, es[1..], es[0].to)
  {
    OrderedFrom(es[1..], Max(es[0].to, es[0].from + 1), es[0].to, |text|);
  }

  lemma SpliceEnd(text: string, from: nat)
    requires from <= |text|
    ensures Splice(text, [], from) == text[from..]
  {
  }

  function Shift(es: seq<Span>, n: nat): (r: seq<Span>)
    ensures |r| == |es|
  {
    seq(|es|, i requires 0 <= i < |es| => Span(es[i].from + n, es[i].to + n, es[i].text))
  }

  lemma ShiftRest(es: seq<Span>, n: nat)
    requires es != []
    ensures Shift(es, n)[1..] == Shift(es[1..], n)
  {
  }

  lemma {:induction false} OrderedShift(es: seq<Span>, from: nat, m: nat, n: nat)
    requires Ordered(es, from, n)
    ensures Ordered(Shift(es, m), from + m, n + m)
    decreases es
  {
    hide Shift;
    if es == [] {
    } else {
      ShiftRest(es, m);
      OrderedShift(es[1..], Max(es[0].to, es[0].from + 1), m, n);
      ShiftFirst(es, m);
    }
  }

  lemma ShiftFirst(es: seq<Span>, n: nat)
    requires es != []
    ensures Shift(es, n)[0] == Span(es[0].from + n, es[0].to + n, es[0].text)
  {
  }

  lemma {:induction false} SpliceShift(a: string, b: string, es: seq<Span>, from: nat)
    requires Ordered(es, from, |b|)
    ensures Ordered(Shift(es, |a|), from + |a|, |a + b|)
    ensures Splice(a + b, Shift(es, |a|), from + |a|) == Splice(b, es, from)
    decreases es
  {
    hide Splice;
    var moved := Shift(es, |a|);
    OrderedShift(es, from, |a|, |b|);
    if es == [] {
      SpliceEnd(a + b, from + |a|);
      SpliceEnd(b, from);
      assert (a + b)[from + |a|..] == b[from..];
    } else {
      hide Shift, Ordered;
      ShiftFirst(es, |a|);
      ShiftRest(es, |a|);
      SpliceStep(a + b, moved, from + |a|);
      SpliceStep(b, es, from);
      SpliceShift(a, b, es[1..], es[0].to);
      assert (a + b)[from + |a|..es[0].from + |a|] == b[from..es[0].from];
    }
  }

  lemma {:induction false} OrderedJoin(es: seq<Span>, fs: seq<Span>, from: nat, m: nat, n: nat)
    requires Ordered(es, from, m) && Ordered(fs, m, n) && m <= n
    ensures Ordered(es + fs, from, n)
    decreases es
  {
    if es == [] {
      assert es + fs == fs;
      OrderedFrom(fs, m, from, n);
    } else {
      OrderedJoin(es[1..], fs, Max(es[0].to, es[0].from + 1), m, n);
      assert (es + fs)[1..] == es[1..] + fs;
    }
  }

  lemma {:induction false} SpliceGap(text: string, fs: seq<Span>, from: nat, m: nat)
    requires from <= m <= |text| && Ordered(fs, m, |text|)
    ensures Ordered(fs, from, |text|) && Splice(text, fs, from) == text[from..m] + Splice(text, fs, m)
  {
    hide Splice;
    OrderedFrom(fs, m, from, |text|);
    if fs == [] {
      SpliceEnd(text, from);
      SpliceEnd(text, m);
      assert text[from..] == text[from..m] + text[m..];
    } else {
      hide Ordered;
      SpliceStep(text, fs, from);
      SpliceStep(text, fs, m);
      var rest := fs[0].text + Splice(text, fs[1..], fs[0].to);
      assert Splice(text, fs, m) == text[m..fs[0].from] + rest;
      assert text[from..fs[0].from] == text[from..m] + text[m..fs[0].from];
    }
  }

  /** Replacements in two adjoining texts do not interfere. */
  lemma {:induction false} SpliceJoin(a: string, b: string, es: seq<Span>, fs: seq<Span>, from: nat)
    requires Ordered(es, from, |a|) && Ordered(fs, 0, |b|)
    ensures Ordered(es + Shift(fs, |a|), from, |a + b|)
    ensures Splice(a + b, es + Shift(fs, |a|), from) == Splice(a, es, from) + Splice(b, fs, 0)
    decreases es
  {
    hide Shift, Splice;
    var gs := Shift(fs, |a|);
    SpliceShift(a, b, fs, 0);
    OrderedShift(fs, 0, |a|, |b|);
    OrderedJoin(es, gs, from, |a|, |a + b|);
    if es == [] {
      assert es + gs == gs;
      SpliceGap(a + b, gs, from, |a|);
      SpliceEnd(a, from);
      assert (a + b)[from..|a|] == a[from..];
    } else {
      hide Ordered;
      SpliceStep(a, es, from);
      SpliceStep(a + b, es + gs, from);
      SpliceJoin(a, b, es[1..], fs, es[0].to);
      assert (es + gs)[1..] == es[1..] + gs;
      var rest := Splice(a, es[1..], es[0].to);
      assert (a + b)[from..es[0].from] == a[from..es[0].from];
      assert (a[from..es[0].from] + es[0].text) + (rest + Splice(b, fs, 0)) ==
             (a[from..es[0].from] + es[0].text + rest) + Splice(b, fs, 0);
    }
  }

  lemma SpliceNothing(a: string)
    ensures Ordered([], 0, |a|) && Splice(a, [], 0) == a
  {
  }

  /** One replacement. */
  lemma SpliceOne(a: string, e: Span)
    requires e.from <= e.to <= |a| && e.from < |a|
    ensures Ordered([e], 0, |a|) && Splice(a, [e], 0) == a[..e.from] + e.text + a[e.to..]
  {
    var none: seq<Span> := [];
    assert [e][1..] == none;
    assert Ordered(none, Max(e.to, e.from + 1), |a|);
    assert Splice(a, none, e.to) == a[e.to..];
  }
}
