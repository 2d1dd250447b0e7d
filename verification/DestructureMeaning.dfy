/** What a destructuring pattern means, told by places and membership: which target gets which
    part of the value, and which value has not the shape. */
module DestructureMeaning {
  import opened Wrappers
  import opened Destructure
  import opened DestructureEmit

  type Entries = seq<(Value, Value)>

  // ---------------------------------------------------------------------------------
  // Entries of a hash.

  /** `v` is the value of the first entry of `h` under `key`. */
  ghost predicate Stored(h: Entries, key: Value, v: Value) {
    exists i: nat :: i < |h| && h[i] == (key, v) && forall j: nat :: j < i ==> h[j].0 != key
  }

  ghost predicate Absent(h: Entries, key: Value) {
    forall i: nat :: i < |h| ==> h[i].0 != key
  }

  /** Looking a key up finds its first entry. */
  lemma {:induction false} LookupMeans(h: Entries, key: Value)
    ensures Lookup(h, key) == None <==> Absent(h, key)
    ensures forall v :: Lookup(h, key) == Some(v) <==> Stored(h, key, v)
  {
    if |h| > 0 {
      LookupMeans(h[1..], key);
      assert h[0].0 != key ==> (Absent(h, key) <==> Absent(h[1..], key)) by {
        assert forall i: nat :: 0 < i < |h| ==> h[i] == h[1..][i - 1];
        assert forall i: nat :: i < |h[1..]| ==> h[1..][i] == h[i + 1];
      }
      forall v
        ensures Lookup(h, key) == Some(v) <==> Stored(h, key, v)
      {
        StoredStep(h, key, v);
      }
    }
  }

  lemma StoredStep(h: Entries, key: Value, v: Value)
    requires |h| > 0
    ensures Stored(h, key, v) <==> if h[0].0 == key then h[0].1 == v else Stored(h[1..], key, v)
  {
    if h[0].0 == key {
      if h[0].1 == v {
        assert h[0] == (key, v);
      }
    } else {
      if i: nat :| i < |h| && h[i] == (key, v) && forall j: nat :: j < i ==> h[j].0 != key {
        assert h[1..][i - 1] == (key, v);
        assert forall j: nat :: j < i - 1 ==> h[1..][j] == h[j + 1];
      }
      if i: nat :| i < |h[1..]| && h[1..][i] == (key, v) && forall j: nat :: j < i ==> h[1..][j].0 != key {
        assert h[i + 1] == (key, v);
        assert forall j: nat :: 0 < j < i + 1 ==> h[j] == h[1..][j - 1];
      }
    }
  }

  /** The places `at` are in order all those of `h` whose key is none of `gone`. */
  ghost predicate Places(h: Entries, gone: seq<Value>, at: seq<nat>) {
    && (forall k: nat, l: nat :: k < l < |at| ==> at[k] < at[l])
    && (forall k: nat :: k < |at| ==> at[k] < |h| && h[at[k]].0 !in gone)
    && (forall i: nat :: i < |h| && h[i].0 !in gone ==> i in at)
  }

  ghost predicate Copies(h: Entries, at: seq<nat>, rest: Entries) {
    |at| == |rest| && forall k: nat :: k < |at| ==> at[k] < |h| && rest[k] == h[at[k]]
  }

  /** `rest` has, in order, the entries of `h` whose key is none of `gone`. */
  ghost predicate IsRest(h: Entries, gone: seq<Value>, rest: Entries) {
    exists at :: Places(h, gone, at) && Copies(h, at, rest)
  }

  function Later(at: seq<nat>): seq<nat> {
    seq(|at|, k requires 0 <= k < |at| => at[k] + 1)
  }

  lemma {:induction false} WithoutIsRest(h: Entries, gone: seq<Value>)
    ensures IsRest(h, gone, Without(h, gone))
  {
    hide Places, Copies;
    if |h| == 0 {
      NoPlaces(h, gone);
    } else {
      WithoutIsRest(h[1..], gone);
      var rest := Without(h[1..], gone);
      var at :| Places(h[1..], gone, at) && Copies(h[1..], at, rest);
      PlacesGrow(h, gone, at);
      CopiesGrow(h, at, rest);
      assert [] + rest == rest;
    }
  }

  lemma NoPlaces(h: Entries, gone: seq<Value>)
    requires |h| == 0
    ensures Places(h, gone, []) && Copies(h, [], [])
  {
  }

  lemma PlacesGrow(h: Entries, gone: seq<Value>, at: seq<nat>)
    requires |h| > 0 && Places(h[1..], gone, at)
    ensures if h[0].0 in gone then Places(h, gone, Later(at)) else Places(h, gone, [0] + Later(at))
  {
    hide Later;
    var later := Later(at);
    forall i: nat | 0 < i < |h| && h[i].0 !in gone
      ensures i in later
    {
      LaterHas(h, gone, at, i);
    }
    LaterRises(h, gone, at);
    assert forall i: nat :: i in [0] + later <==> i == 0 || i in later;
  }

  lemma LaterHas(h: Entries, gone: seq<Value>, at: seq<nat>, i: nat)
    requires 0 < i < |h| && Places(h[1..], gone, at) && h[i].0 !in gone
    ensures i in Later(at)
  {
    assert h[1..][i - 1] == h[i];
    var k: nat :| k < |at| && at[k] == i - 1;
    assert Later(at)[k] == i;
  }

  lemma LaterRises(h: Entries, gone: seq<Value>, at: seq<nat>)
    requires |h| > 0 && Places(h[1..], gone, at)
    ensures |Later(at)| == |at|
    ensures forall k: nat :: k < |at| ==> 0 < Later(at)[k] < |h| && h[Later(at)[k]].0 !in gone
    ensures forall k: nat, l: nat :: k < l < |at| ==> Later(at)[k] < Later(at)[l]
  {
    forall k: nat | k < |at|
      ensures 0 < Later(at)[k] < |h| && h[Later(at)[k]].0 !in gone
    {
      assert h[Later(at)[k]] == h[1..][at[k]];
    }
  }

  lemma CopiesGrow(h: Entries, at: seq<nat>, rest: Entries)
    requires |h| > 0 && Copies(h[1..], at, rest)
    ensures Copies(h, Later(at), rest) && Copies(h, [0] + Later(at), [h[0]] + rest)
  {
    var later := Later(at);
    forall k: nat | k < |later|
      ensures later[k] < |h| && rest[k] == h[later[k]]
    {
      assert rest[k] == h[1..][at[k]];
    }
  }

  /** There is only one such list. */
  lemma {:induction false} RestIsWithout(h: Entries, gone: seq<Value>, rest: Entries)
    requires IsRest(h, gone, rest)
    ensures rest == Without(h, gone)
  {
    hide Places, Copies;
    var at :| Places(h, gone, at) && Copies(h, at, rest);
    if |h| == 0 {
      NothingCopied(h, at, rest);
    } else {
      FirstPlace(h, gone, at);
      var n := if h[0].0 in gone then 0 else 1;
      PlacesShrink(h, gone, at, n);
      CopiesShrink(h, at, rest, n);
      RestIsWithout(h[1..], gone, rest[n..]);
      assert rest == rest[..n] + rest[n..];
    }
  }

  lemma NothingCopied(h: Entries, at: seq<nat>, rest: Entries)
    requires |h| == 0 && Copies(h, at, rest)
    ensures rest == []
  {
    if rest != [] {
      FirstCopied(h, at, rest);
    }
  }

  lemma FirstCopied(h: Entries, at: seq<nat>, rest: Entries)
    requires Copies(h, at, rest) && |rest| > 0
    ensures |h| > 0
  {
    var first := at[0];
  }

  lemma FirstPlace(h: Entries, gone: seq<Value>, at: seq<nat>)
    requires |h| > 0 && Places(h, gone, at)
    ensures if h[0].0 in gone then forall k: nat :: k < |at| ==> at[k] > 0
            else |at| > 0 && at[0] == 0 && forall k: nat :: 0 < k < |at| ==> at[k] > 0
  {
    if h[0].0 !in gone {
      var k: nat :| k < |at| && at[k] == 0;
      var first := at[0];
    }
  }

  function Sooner(at: seq<nat>, n: nat): seq<nat>
    requires n <= |at| && forall k: nat :: n <= k < |at| ==> at[k] > 0
  {
    seq(|at| - n, k requires 0 <= k < |at| - n => at[k + n] - 1)
  }

  lemma PlacesShrink(h: Entries, gone: seq<Value>, at: seq<nat>, n: nat)
    requires |h| > 0 && Places(h, gone, at) && n <= |at| && (forall k: nat :: n <= k < |at| ==> at[k] > 0)
    requires n == 0 || (n == 1 && at[0] == 0)
    ensures Places(h[1..], gone, Sooner(at, n))
  {
    hide Sooner;
    var sooner := Sooner(at, n);
    forall i: nat | i < |h[1..]| && h[1..][i].0 !in gone
      ensures i in sooner
    {
      SoonerHas(h, gone, at, n, i);
    }
    forall k: nat | k < |sooner|
      ensures sooner[k] < |h[1..]| && h[1..][sooner[k]].0 !in gone
    {
      SoonerIn(h, gone, at, n, k);
    }
    forall k: nat, l: nat | k < l < |sooner|
      ensures sooner[k] < sooner[l]
    {
      SoonerRises(h, gone, at, n, k, l);
    }
  }

  lemma SoonerIn(h: Entries, gone: seq<Value>, at: seq<nat>, n: nat, k: nat)
    requires |h| > 0 && Places(h, gone, at) && n <= |at| && (forall k: nat :: n <= k < |at| ==> at[k] > 0)
    requires k < |Sooner(at, n)|
    ensures Sooner(at, n)[k] < |h[1..]| && h[1..][Sooner(at, n)[k]].0 !in gone
  {
    var l := k + n;
    assert at[l] < |h| && h[at[l]].0 !in gone;
  }

  lemma SoonerRises(h: Entries, gone: seq<Value>, at: seq<nat>, n: nat, k: nat, l: nat)
    requires |h| > 0 && Places(h, gone, at) && n <= |at| && (forall k: nat :: n <= k < |at| ==> at[k] > 0)
    requires k < l < |Sooner(at, n)|
    ensures Sooner(at, n)[k] < Sooner(at, n)[l]
  {
    var x, y := k + n, l + n;
    assert at[x] < at[y];
  }

  lemma SoonerHas(h: Entries, gone: seq<Value>, at: seq<nat>, n: nat, i: nat)
    requires |h| > 0 && Places(h, gone, at) && n <= |at| && (forall k: nat :: n <= k < |at| ==> at[k] > 0)
    requires n == 0 || (n == 1 && at[0] == 0)
    requires i + 1 < |h| && h[i + 1].0 !in gone
    ensures i in Sooner(at, n)
  {
    var k: nat :| k < |at| && at[k] == i + 1;
    assert Sooner(at, n)[k - n] == i;
  }

  lemma CopiesShrink(h: Entries, at: seq<nat>, rest: Entries, n: nat)
    requires |h| > 0 && Copies(h, at, rest) && n <= |at| && (forall k: nat :: n <= k < |at| ==> at[k] > 0)
    requires n == 0 || (n == 1 && at[0] == 0)
    ensures n <= |rest| && rest[..n] == h[..n] && Copies(h[1..], Sooner(at, n), rest[n..])
  {
    var sooner := Sooner(at, n);
    forall k: nat | k < |sooner|
      ensures sooner[k] < |h[1..]| && rest[n..][k] == h[1..][sooner[k]]
    {
      assert rest[k + n] == h[at[k + n]];
    }
  }

  lemma {:induction false} LookupWithout(h: Entries, gone: seq<Value>, key: Value)
    ensures Lookup(Without(h, gone), key) == if key in gone then None else Lookup(h, key)
  {
    if |h| > 0 {
      LookupWithout(h[1..], gone, key);
      var w := Without(h[1..], gone);
      assert ([h[0]] + w)[1..] == w;
      assert [] + w == w;
    }
  }

  /** A key that is named is not in the rest; any other has there what it has in the hash. */
  lemma RestLookup(h: Entries, gone: seq<Value>, rest: Entries, key: Value)
    requires IsRest(h, gone, rest)
    ensures Absent(rest, key) <==> key in gone || Absent(h, key)
    ensures forall v :: Stored(rest, key, v) <==> key !in gone && Stored(h, key, v)
  {
    hide Stored, Absent, IsRest;
    RestIsWithout(h, gone, rest);
    LookupWithout(h, gone, key);
    LookupMeans(h, key);
    LookupMeans(rest, key);
  }

  // ---------------------------------------------------------------------------------
  // Shares of an array.

  /** `w` is what child `j` of a group of `n` gets of the array `a`: with a starred child the array
      is a front with one element for each child before it, a back with one for each child after
      it, and what is between. */
  ghost predicate IsShare(a: seq<Value>, n: nat, rest: Option<nat>, j: nat, w: Value)
    requires j < n && (rest.Some? ==> rest.value < n)
  {
    if rest.None? then |a| == n && w == a[j]
    else exists front, middle, back :: Shared(a, n, rest.value, j, w, front, middle, back)
  }

  ghost predicate Shared(a: seq<Value>, n: nat, r: nat, j: nat, w: Value, front: seq<Value>, middle: seq<Value>,
                         back: seq<Value>) {
    && j < n && r < n && a == front + middle + back && |front| == r && |back| == n - r - 1
    && w == if j < r then front[j] else if j == r then Array(middle) else back[j - r - 1]
  }

  lemma ShareMeans(a: seq<Value>, n: nat, rest: Option<nat>, j: nat, w: Value)
    requires j < n && (rest.Some? ==> rest.value < n)
    ensures IsShare(a, n, rest, j, w) <==> CountFits(|a|, n, rest) && w == Share(a, n, rest, j)
  {
    hide Shared, Share;
    if rest.Some? {
      var r := rest.value;
      if front, middle, back :| Shared(a, n, r, j, w, front, middle, back) {
        SharedIsShare(a, n, r, j, w, front, middle, back);
      }
      if CountFits(|a|, n, rest) && w == Share(a, n, rest, j) {
        ShareIsShared(a, n, r, j);
      }
    } else if |a| == n {
      PlainShare(a, n, j);
    }
  }

  lemma PlainShare(a: seq<Value>, n: nat, j: nat)
    requires j < n == |a|
    ensures Share(a, n, None, j) == a[j]
  {
  }

  lemma SharedIsShare(a: seq<Value>, n: nat, r: nat, j: nat, w: Value, front: seq<Value>, middle: seq<Value>,
                      back: seq<Value>)
    requires Shared(a, n, r, j, w, front, middle, back)
    ensures CountFits(|a|, n, Some(r)) && w == Share(a, n, Some(r), j)
  {
    assert a[r..|a| - (n - r - 1)] == middle;
  }

  lemma ShareIsShared(a: seq<Value>, n: nat, r: nat, j: nat)
    requires j < n && r < n && CountFits(|a|, n, Some(r))
    ensures exists front, middle, back :: Shared(a, n, r, j, Share(a, n, Some(r), j), front, middle, back)
  {
    var k := n - r - 1;
    var front, middle, back := a[..r], a[r..|a| - k], a[|a| - k..];
    assert a == front + middle + back;
    assert Shared(a, n, r, j, Share(a, n, Some(r), j), front, middle, back);
  }

  // ---------------------------------------------------------------------------------
  // Patterns.

  type Bindings = seq<(Target, Value)>

  function Flat(parts: seq<Bindings>): Bindings {
    if |parts| == 0 then [] else parts[0] + Flat(parts[1..])
  }

  /** The assignments that matching `p` against `v` asks for, in order. */
  ghost predicate Binds(p: Pattern, v: Value, regs: Registers, bs: Bindings)
    requires WellFormed(p)
    decreases p, 1
  {
    match p
    case Leaf(target) => bs == [(target, v)]
    case Group(children, rest) =>
      && v.Array?
      && exists parts: seq<Bindings> :: |parts| == |children| && bs == Flat(parts) &&
           forall j: nat :: j < |children| ==> ChildBinds(p, j, v.elements, regs, parts[j])
    case Keyed(keys, entries, others) =>
      && v.Hash?
      && exists parts: seq<Bindings>, rest: Entries ::
           && |parts| == |entries| && bs == Flat(parts) + OthersBind(others, rest)
           && (others.Some? ==> IsRest(v.entries, KeyValues(keys, regs), rest))
           && forall j: nat :: j < |entries| ==> EntryBinds(p, j, v.entries, regs, parts[j])
  }

  function OthersBind(others: Option<Target>, rest: Entries): Bindings {
    if others.Some? then [(others.value, Hash(rest))] else []
  }

  ghost predicate ChildBinds(p: Pattern, j: nat, a: seq<Value>, regs: Registers, bs: Bindings)
    requires p.Group? && WellFormed(p) && j < |p.children|
    decreases p, 0
  {
    exists w :: IsShare(a, |p.children|, p.rest, j, w) && Binds(p.children[j], w, regs, bs)
  }

  ghost predicate EntryBinds(p: Pattern, j: nat, h: Entries, regs: Registers, bs: Bindings)
    requires p.Keyed? && WellFormed(p) && j < |p.entries|
    decreases p, 0
  {
    exists w :: Stored(h, Get(regs, p.keys[j]), w) && Binds(p.entries[j], w, regs, bs)
  }

  ghost predicate ChildFits(p: Pattern, j: nat, a: seq<Value>, regs: Registers)
    requires p.Group? && WellFormed(p) && j < |p.children|
  {
    exists bs :: ChildBinds(p, j, a, regs, bs)
  }

  ghost predicate EntryFits(p: Pattern, j: nat, h: Entries, regs: Registers)
    requires p.Keyed? && WellFormed(p) && j < |p.entries|
  {
    exists bs :: EntryBinds(p, j, h, regs, bs)
  }

  /** Matching `p` against `v` fails with `e`: at the first place, from left to right, where the
      shape is wrong. */
  ghost predicate Refuses(p: Pattern, v: Value, regs: Registers, e: Error)
    requires WellFormed(p)
    decreases p, 1
  {
    match p
    case Leaf(_) => false
    case Group(children, rest) =>
      if !v.Array? then e == TypeError
      else if (if rest.Some? then |v.elements| < |children| - 1 else |v.elements| != |children|) then e == ArityError
      else exists j: nat, w {:trigger IsShare(v.elements, |children|, rest, j, w)} ::
             && j < |children| && IsShare(v.elements, |children|, rest, j, w) && Refuses(children[j], w, regs, e)
             && forall k: nat :: k < j ==> ChildFits(p, k, v.elements, regs)
    case Keyed(keys, entries, _) =>
      if !v.Hash? then e == TypeError
      else
        || (exists j: nat {:trigger Absent(v.entries, Get(regs, keys[j]))} ::
              && j < |entries| && Absent(v.entries, Get(regs, keys[j])) && e == IndexError
              && forall k: nat :: k < j ==> EntryFits(p, k, v.entries, regs))
        || (exists j: nat, w {:trigger Stored(v.entries, Get(regs, keys[j]), w)} ::
              && j < |entries| && Stored(v.entries, Get(regs, keys[j]), w) && Refuses(entries[j], w, regs, e)
              && forall k: nat :: k < j ==> EntryFits(p, k, v.entries, regs))
  }

  ghost predicate ChildRefuses(p: Pattern, j: nat, a: seq<Value>, regs: Registers, e: Error)
    requires p.Group? && WellFormed(p) && j < |p.children|
  {
    exists w :: IsShare(a, |p.children|, p.rest, j, w) && Refuses(p.children[j], w, regs, e)
  }

  ghost predicate EntryRefuses(p: Pattern, j: nat, h: Entries, regs: Registers, e: Error)
    requires p.Keyed? && WellFormed(p) && j < |p.entries|
  {
    || (Absent(h, Get(regs, p.keys[j])) && e == IndexError)
    || exists w :: Stored(h, Get(regs, p.keys[j]), w) && Refuses(p.entries[j], w, regs, e)
  }

  function Zip(ts: seq<Target>, vs: seq<Value>): (bs: Bindings)
    requires |ts| == |vs|
    ensures |bs| == |ts|
  {
    seq(|ts|, i requires 0 <= i < |ts| => (ts[i], vs[i]))
  }

  /** `d` is the outcome the two relations describe. */
  ghost predicate Agrees(p: Pattern, v: Value, regs: Registers, d: Result<seq<Value>>)
    requires WellFormed(p)
  {
    && (d.Ok? ==> |d.value| == |Targets(p)|)
    && (forall bs :: Binds(p, v, regs, bs) <==> d.Ok? && bs == Zip(Targets(p), d.value))
    && (forall e :: Refuses(p, v, regs, e) <==> d == Err(e))
  }

  // ---------------------------------------------------------------------------------
  // The relations and the function agree.

  lemma LeafMeans(p: Pattern, v: Value, regs: Registers)
    requires p.Leaf?
    ensures Agrees(p, v, regs, Denote(p, v, regs))
  {
    assert Zip(Targets(p), [v]) == [(p.target, v)];
  }

  /** What the function gives for one child. */
  function ChildValue(p: Pattern, j: nat, a: seq<Value>, regs: Registers): Result<seq<Value>>
    requires p.Group? && WellFormed(p) && j < |p.children| && CountFits(|a|, |p.children|, p.rest)
  {
    Denote(p.children[j], Share(a, |p.children|, p.rest, j), regs)
  }

  ghost predicate ChildAgrees(p: Pattern, j: nat, a: seq<Value>, regs: Registers)
    requires p.Group? && WellFormed(p) && j < |p.children| && CountFits(|a|, |p.children|, p.rest)
  {
    var d := ChildValue(p, j, a, regs);
    && (d.Ok? ==> |d.value| == |Targets(p.children[j])|)
    && (forall bs :: ChildBinds(p, j, a, regs, bs) <==> d.Ok? && bs == Zip(Targets(p.children[j]), d.value))
    && (forall e :: ChildRefuses(p, j, a, regs, e) <==> d == Err(e))
  }

  lemma ChildMeans(p: Pattern, j: nat, a: seq<Value>, regs: Registers)
    requires p.Group? && WellFormed(p) && j < |p.children| && CountFits(|a|, |p.children|, p.rest)
    requires Agrees(p.children[j], Share(a, |p.children|, p.rest, j), regs, ChildValue(p, j, a, regs))
    ensures ChildAgrees(p, j, a, regs)
  {
    hide IsShare, Share, Denote, Zip, Targets, Stored;
    forall w
      ensures IsShare(a, |p.children|, p.rest, j, w) <==> w == Share(a, |p.children|, p.rest, j)
    {
      StarWithin(p);
      ShareMeans(a, |p.children|, p.rest, j, w);
    }
    var v := Share(a, |p.children|, p.rest, j);
    assert IsShare(a, |p.children|, p.rest, j, v);
    forall bs
      ensures ChildBinds(p, j, a, regs, bs) <==> Binds(p.children[j], v, regs, bs)
    {
      if ChildBinds(p, j, a, regs, bs) {
        var w :| IsShare(a, |p.children|, p.rest, j, w) && Binds(p.children[j], w, regs, bs);
      }
    }
    forall e
      ensures ChildRefuses(p, j, a, regs, e) <==> Refuses(p.children[j], v, regs, e)
    {
    }
  }

  lemma GroupRefusal(p: Pattern, a: seq<Value>, regs: Registers, e: Error)
    requires p.Group? && WellFormed(p) && CountFits(|a|, |p.children|, p.rest)
    ensures Refuses(p, Array(a), regs, e) <==>
            exists j: nat :: j < |p.children| && ChildRefuses(p, j, a, regs, e) &&
              forall k: nat :: k < j ==> ChildFits(p, k, a, regs)
  {
    hide IsShare, ChildFits;
    if j: nat :| j < |p.children| && ChildRefuses(p, j, a, regs, e) && forall k: nat :: k < j ==> ChildFits(p, k, a, regs) {
      var w :| IsShare(a, |p.children|, p.rest, j, w) && Refuses(p.children[j], w, regs, e);
    }
    if Refuses(p, Array(a), regs, e) {
      var j: nat, w :| j < |p.children| && IsShare(a, |p.children|, p.rest, j, w) && Refuses(p.children[j], w, regs, e) &&
        forall k: nat :: k < j ==> ChildFits(p, k, a, regs);
      assert ChildRefuses(p, j, a, regs, e);
    }
  }

  ghost predicate EntryFails(p: Pattern, j: nat, h: Entries, regs: Registers, e: Error)
    requires p.Keyed? && WellFormed(p) && j < |p.entries|
  {
    EntryRefuses(p, j, h, regs, e) && forall k: nat :: k < j ==> EntryFits(p, k, h, regs)
  }

  lemma KeyedRefusal(p: Pattern, h: Entries, regs: Registers, e: Error)
    requires p.Keyed? && WellFormed(p)
    ensures Refuses(p, Hash(h), regs, e) <==> exists j: nat :: j < |p.entries| && EntryFails(p, j, h, regs, e)
  {
    hide EntryFails, Refuses;
    if j: nat :| j < |p.entries| && EntryFails(p, j, h, regs, e) {
      KeyedFailure(p, j, h, regs, e);
    }
    if Refuses(p, Hash(h), regs, e) {
      var j := FailingEntry(p, h, regs, e);
    }
  }

  lemma KeyedFailure(p: Pattern, j: nat, h: Entries, regs: Registers, e: Error)
    requires p.Keyed? && WellFormed(p) && j < |p.entries| && EntryFails(p, j, h, regs, e)
    ensures Refuses(p, Hash(h), regs, e)
  {
    hide Stored, Absent, EntryFits;
    if !(Absent(h, Get(regs, p.keys[j])) && e == IndexError) {
      var w :| Stored(h, Get(regs, p.keys[j]), w) && Refuses(p.entries[j], w, regs, e);
    }
  }

  lemma FailingEntry(p: Pattern, h: Entries, regs: Registers, e: Error) returns (j: nat)
    requires p.Keyed? && WellFormed(p) && Refuses(p, Hash(h), regs, e)
    ensures j < |p.entries| && EntryFails(p, j, h, regs, e)
  {
    hide Stored, Absent, EntryFits;
    if i: nat :| i < |p.entries| && Absent(h, Get(regs, p.keys[i])) && e == IndexError &&
                   (forall k: nat :: k < i ==> EntryFits(p, k, h, regs)) {
      j := i;
    } else {
      var i: nat, w :| i < |p.entries| && Stored(h, Get(regs, p.keys[i]), w) && Refuses(p.entries[i], w, regs, e) &&
        forall k: nat :: k < i ==> EntryFits(p, k, h, regs);
      j := i;
    }
  }

  lemma StarWithin(p: Pattern)
    requires p.Group? && WellFormed(p)
    ensures p.rest.Some? ==> p.rest.value < |p.children|
  {
  }

  /** One outcome after another, up to the first failure. */
  function Collect(ds: seq<Result<seq<Value>>>): Result<seq<Value>> {
    if |ds| == 0 then Ok([]) else Both(ds[0], Collect(ds[1..]))
  }

  ghost predicate AllFit(ds: seq<Result<seq<Value>>>, ps: seq<Pattern>) {
    |ds| == |ps| && forall i: nat :: i < |ds| && ds[i].Ok? ==> |ds[i].value| == |Targets(ps[i])|
  }

  ghost predicate AllOk(ds: seq<Result<seq<Value>>>) {
    forall i: nat :: i < |ds| ==> ds[i].Ok?
  }

  /** The first failure. */
  ghost predicate FailsAt(ds: seq<Result<seq<Value>>>, j: nat, e: Error) {
    j < |ds| && ds[j] == Err(e) && forall i: nat :: i < j ==> ds[i].Ok?
  }

  ghost function Parts(ds: seq<Result<seq<Value>>>, ps: seq<Pattern>): (parts: seq<Bindings>)
    requires AllFit(ds, ps) && AllOk(ds)
    ensures |parts| == |ds|
  {
    seq(|ds|, i requires 0 <= i < |ds| => Zip(Targets(ps[i]), ds[i].value))
  }

  lemma {:induction false} CollectOk(ds: seq<Result<seq<Value>>>, ps: seq<Pattern>)
    requires AllFit(ds, ps) && AllOk(ds)
    ensures var d := Collect(ds);
            d.Ok? && |d.value| == |TargetsOf(ps)| && Zip(TargetsOf(ps), d.value) == Flat(Parts(ds, ps))
  {
    if |ds| > 0 {
      CollectOk(ds[1..], ps[1..]);
      assert Parts(ds, ps)[1..] == Parts(ds[1..], ps[1..]);
      var a, b := ds[0].value, Collect(ds[1..]).value;
      assert Zip(Targets(ps[0]) + TargetsOf(ps[1..]), a + b) == Zip(Targets(ps[0]), a) + Zip(TargetsOf(ps[1..]), b);
    }
  }

  lemma {:induction false} CollectErr(ds: seq<Result<seq<Value>>>) returns (j: nat)
    requires !AllOk(ds)
    ensures Collect(ds).Err? && FailsAt(ds, j, Collect(ds).error)
  {
    if ds[0].Err? {
      j := 0;
    } else {
      var i: nat :| i < |ds| && ds[i].Err?;
      assert ds[1..][i - 1].Err?;
      var k := CollectErr(ds[1..]);
      j := k + 1;
      assert forall l: nat :: 0 < l < j ==> ds[l] == ds[1..][l - 1];
    }
  }

  lemma FailsOnce(ds: seq<Result<seq<Value>>>, j: nat, e: Error)
    requires FailsAt(ds, j, e)
    ensures !AllOk(ds) && Collect(ds) == Err(e)
  {
    hide Collect;
    assert ds[j].Err?;
    var k := CollectErr(ds);
  }

  // ---------------------------------------------------------------------------------
  // Groups.

  function ChildValues(p: Pattern, a: seq<Value>, regs: Registers): (ds: seq<Result<seq<Value>>>)
    requires p.Group? && WellFormed(p) && CountFits(|a|, |p.children|, p.rest)
    ensures |ds| == |p.children|
  {
    seq(|p.children|, j requires 0 <= j < |p.children| => ChildValue(p, j, a, regs))
  }

  lemma {:induction false} GroupCollects(p: Pattern, j: nat, a: seq<Value>, regs: Registers)
    requires p.Group? && WellFormed(p) && j <= |p.children| && CountFits(|a|, |p.children|, p.rest)
    ensures DenoteGroup(p, j, a, regs) == Collect(ChildValues(p, a, regs)[j..])
    decreases |p.children| - j
  {
    hide Denote, Share, CountFits;
    if j < |p.children| {
      GroupCollects(p, j + 1, a, regs);
      var ds := ChildValues(p, a, regs);
      assert ds[j..][1..] == ds[j + 1..];
    }
  }

  lemma GroupAgrees(p: Pattern, a: seq<Value>, regs: Registers)
    requires p.Group? && WellFormed(p) && CountFits(|a|, |p.children|, p.rest)
    requires forall j: nat :: j < |p.children| ==> ChildAgrees(p, j, a, regs)
    ensures Agrees(p, Array(a), regs, Denote(p, Array(a), regs))
  {
    hide Collect, ChildValue, Zip, Flat, DenoteGroup, TargetsOf, IsShare, Stored;
    var ds := ChildValues(p, a, regs);
    GroupCollects(p, 0, a, regs);
    assert ds[0..] == ds;
    forall i: nat | i < |ds| && ds[i].Ok?
      ensures |ds[i].value| == |Targets(p.children[i])|
    {
      assert ChildAgrees(p, i, a, regs);
    }
    if AllOk(ds) {
      CollectOk(ds, p.children);
      GroupBinds(p, a, regs);
      forall e
        ensures !Refuses(p, Array(a), regs, e)
      {
        GroupRefusal(p, a, regs, e);
        forall j: nat | j < |p.children|
          ensures !ChildRefuses(p, j, a, regs, e)
        {
          assert ChildAgrees(p, j, a, regs) && ds[j].Ok?;
        }
      }
    } else {
      GroupRefuses(p, a, regs);
      var first := CollectErr(ds);
    }
  }

  lemma GroupBinds(p: Pattern, a: seq<Value>, regs: Registers)
    requires p.Group? && WellFormed(p) && CountFits(|a|, |p.children|, p.rest)
    requires forall j: nat :: j < |p.children| ==> ChildAgrees(p, j, a, regs)
    requires AllFit(ChildValues(p, a, regs), p.children) && AllOk(ChildValues(p, a, regs))
    ensures forall bs :: Binds(p, Array(a), regs, bs) <==> bs == Flat(Parts(ChildValues(p, a, regs), p.children))
  {
    hide ChildValue, Zip, Flat, IsShare, Stored;
    var ds := ChildValues(p, a, regs);
    var all := Parts(ds, p.children);
    forall j: nat | j < |p.children|
      ensures forall bs :: ChildBinds(p, j, a, regs, bs) <==> bs == all[j]
    {
      assert ChildAgrees(p, j, a, regs) && ds[j].Ok?;
    }
    forall bs
      ensures Binds(p, Array(a), regs, bs) <==> bs == Flat(all)
    {
      if Binds(p, Array(a), regs, bs) {
        var parts: seq<Bindings> :| |parts| == |p.children| && bs == Flat(parts) &&
          forall j: nat :: j < |p.children| ==> ChildBinds(p, j, a, regs, parts[j]);
        assert parts == all;
      }
    }
  }

  lemma ChildFacts(p: Pattern, j: nat, a: seq<Value>, regs: Registers)
    requires p.Group? && WellFormed(p) && j < |p.children| && CountFits(|a|, |p.children|, p.rest)
    requires ChildAgrees(p, j, a, regs)
    ensures ChildFits(p, j, a, regs) <==> ChildValue(p, j, a, regs).Ok?
    ensures forall e :: ChildRefuses(p, j, a, regs, e) <==> ChildValue(p, j, a, regs) == Err(e)
  {
    hide ChildValue, ChildBinds, ChildRefuses, Zip;
    var d := ChildValue(p, j, a, regs);
    if d.Ok? {
      assert ChildBinds(p, j, a, regs, Zip(Targets(p.children[j]), d.value));
    }
  }

  lemma GroupRefuses(p: Pattern, a: seq<Value>, regs: Registers)
    requires p.Group? && WellFormed(p) && CountFits(|a|, |p.children|, p.rest)
    requires forall j: nat :: j < |p.children| ==> ChildAgrees(p, j, a, regs)
    requires !AllOk(ChildValues(p, a, regs))
    ensures forall bs :: !Binds(p, Array(a), regs, bs)
    ensures forall e :: Refuses(p, Array(a), regs, e) <==> Collect(ChildValues(p, a, regs)) == Err(e)
  {
    hide ChildValue, ChildFits, ChildRefuses, Binds, Refuses, Collect, ChildAgrees;
    var ds := ChildValues(p, a, regs);
    forall j: nat | j < |p.children|
      ensures ChildFits(p, j, a, regs) <==> ds[j].Ok?
      ensures forall e :: ChildRefuses(p, j, a, regs, e) <==> ds[j] == Err(e)
    {
      ChildFacts(p, j, a, regs);
    }
    var first := CollectErr(ds);
    forall e
      ensures Refuses(p, Array(a), regs, e) <==> Collect(ds) == Err(e)
    {
      GroupRefusal(p, a, regs, e);
      if j: nat :| j < |p.children| && ChildRefuses(p, j, a, regs, e) &&
                   forall k: nat :: k < j ==> ChildFits(p, k, a, regs) {
        FailsOnce(ds, j, e);
      }
      if Collect(ds) == Err(e) {
        assert ChildRefuses(p, first, a, regs, e);
      }
    }
    forall bs
      ensures !Binds(p, Array(a), regs, bs)
    {
      if Binds(p, Array(a), regs, bs) {
        BindsFits(p, a, regs, bs, first);
      }
    }
  }

  lemma BindsFits(p: Pattern, a: seq<Value>, regs: Registers, bs: Bindings, j: nat)
    requires p.Group? && WellFormed(p) && Binds(p, Array(a), regs, bs) && j < |p.children|
    ensures ChildFits(p, j, a, regs)
  {
    hide Flat, IsShare;
    var parts: seq<Bindings> :| |parts| == |p.children| && bs == Flat(parts) &&
      forall j: nat :: j < |p.children| ==> ChildBinds(p, j, a, regs, parts[j]);
    assert ChildBinds(p, j, a, regs, parts[j]);
  }

  lemma KeyedFits(p: Pattern, h: Entries, regs: Registers, bs: Bindings, j: nat)
    requires p.Keyed? && WellFormed(p) && Binds(p, Hash(h), regs, bs) && j < |p.entries|
    ensures EntryFits(p, j, h, regs)
  {
    hide Flat, Stored, IsRest, KeyValues;
    var parts: seq<Bindings>, rest: Entries :| |parts| == |p.entries| && bs == Flat(parts) + OthersBind(p.others, rest) &&
      forall j: nat :: j < |p.entries| ==> EntryBinds(p, j, h, regs, parts[j]);
    assert EntryBinds(p, j, h, regs, parts[j]);
  }

  lemma NoShares(p: Pattern, a: seq<Value>, regs: Registers)
    requires p.Group? && WellFormed(p) && !CountFits(|a|, |p.children|, p.rest)
    ensures Agrees(p, Array(a), regs, Denote(p, Array(a), regs))
  {
    hide Flat, IsShare;
    forall bs
      ensures !Binds(p, Array(a), regs, bs)
    {
      if Binds(p, Array(a), regs, bs) {
        BindsFits(p, a, regs, bs, 0);
        var cs :| ChildBinds(p, 0, a, regs, cs);
        var w :| IsShare(a, |p.children|, p.rest, 0, w) && Binds(p.children[0], w, regs, cs);
        ShareMeans(a, |p.children|, p.rest, 0, w);
      }
    }
  }

  lemma {:induction false} GroupMeans(p: Pattern, v: Value, regs: Registers)
    requires p.Group? && WellFormed(p)
    ensures Agrees(p, v, regs, Denote(p, v, regs))
    decreases p, 0
  {
    if v.Array? {
      var a := v.elements;
      if CountFits(|a|, |p.children|, p.rest) {
        forall j: nat | j < |p.children|
          ensures ChildAgrees(p, j, a, regs)
        {
          DenoteMeans(p.children[j], Share(a, |p.children|, p.rest, j), regs);
          ChildMeans(p, j, a, regs);
        }
        GroupAgrees(p, a, regs);
      } else {
        NoShares(p, a, regs);
      }
    }
  }

  // ---------------------------------------------------------------------------------
  // Hash patterns.

  function EntryValue(p: Pattern, j: nat, h: Entries, regs: Registers): Result<seq<Value>>
    requires p.Keyed? && WellFormed(p) && j < |p.entries|
  {
    match Lookup(h, Get(regs, p.keys[j]))
    case None => Err(IndexError)
    case Some(v) => Denote(p.entries[j], v, regs)
  }

  function EntryValues(p: Pattern, h: Entries, regs: Registers): (ds: seq<Result<seq<Value>>>)
    requires p.Keyed? && WellFormed(p)
    ensures |ds| == |p.entries|
  {
    seq(|p.entries|, j requires 0 <= j < |p.entries| => EntryValue(p, j, h, regs))
  }

  ghost predicate EntryAgrees(p: Pattern, j: nat, h: Entries, regs: Registers)
    requires p.Keyed? && WellFormed(p) && j < |p.entries|
  {
    var d := EntryValue(p, j, h, regs);
    && (d.Ok? ==> |d.value| == |Targets(p.entries[j])|)
    && (forall bs :: EntryBinds(p, j, h, regs, bs) <==> d.Ok? && bs == Zip(Targets(p.entries[j]), d.value))
    && (forall e :: EntryRefuses(p, j, h, regs, e) <==> d == Err(e))
  }

  lemma EntryMeans(p: Pattern, j: nat, h: Entries, regs: Registers)
    requires p.Keyed? && WellFormed(p) && j < |p.entries|
    requires var found := Lookup(h, Get(regs, p.keys[j]));
             found.Some? ==> Agrees(p.entries[j], found.value, regs, Denote(p.entries[j], found.value, regs))
    ensures EntryAgrees(p, j, h, regs)
  {
    hide Stored, Absent, Lookup, Denote, Zip, Targets, IsShare;
    var key := Get(regs, p.keys[j]);
    LookupMeans(h, key);
    forall bs
      ensures EntryBinds(p, j, h, regs, bs) <==>
              Lookup(h, key).Some? && Binds(p.entries[j], Lookup(h, key).value, regs, bs)
    {
      if EntryBinds(p, j, h, regs, bs) {
        var w :| Stored(h, key, w) && Binds(p.entries[j], w, regs, bs);
      }
    }
  }

  function Others(p: Pattern, h: Entries, regs: Registers): seq<Value>
    requires p.Keyed?
  {
    if p.others.Some? then [Hash(Without(h, KeyValues(p.keys, regs)))] else []
  }

  lemma {:induction false} KeyedCollects(p: Pattern, j: nat, h: Entries, regs: Registers)
    requires p.Keyed? && WellFormed(p) && j <= |p.entries|
    ensures DenoteKeyed(p, j, h, regs) == Both(Collect(EntryValues(p, h, regs)[j..]), Ok(Others(p, h, regs)))
    decreases |p.entries| - j
  {
    hide Denote, Lookup;
    if j < |p.entries| {
      KeyedCollects(p, j + 1, h, regs);
      var ds := EntryValues(p, h, regs);
      assert ds[j..][1..] == ds[j + 1..];
      BothTwice(ds[j], Collect(ds[j + 1..]), Others(p, h, regs));
    } else {
      assert [] + Others(p, h, regs) == Others(p, h, regs);
    }
  }

  lemma BothTwice(a: Result<seq<Value>>, b: Result<seq<Value>>, c: seq<Value>)
    ensures Both(a, Both(b, Ok(c))) == Both(Both(a, b), Ok(c))
  {
    if a.Ok? && b.Ok? {
      assert a.value + (b.value + c) == (a.value + b.value) + c;
    }
  }

  lemma KeyedBinds(p: Pattern, h: Entries, regs: Registers)
    requires p.Keyed? && WellFormed(p) && forall j: nat :: j < |p.entries| ==> EntryAgrees(p, j, h, regs)
    requires AllFit(EntryValues(p, h, regs), p.entries) && AllOk(EntryValues(p, h, regs))
    ensures forall bs :: Binds(p, Hash(h), regs, bs) <==>
              bs == Flat(Parts(EntryValues(p, h, regs), p.entries)) +
                    OthersBind(p.others, Without(h, KeyValues(p.keys, regs)))
  {
    hide EntryValue, Zip, Flat, Without, IsRest, KeyValues, IsShare, Stored;
    var ds, keys := EntryValues(p, h, regs), KeyValues(p.keys, regs);
    var all := Parts(ds, p.entries);
    WithoutIsRest(h, keys);
    forall j: nat | j < |p.entries|
      ensures forall bs :: EntryBinds(p, j, h, regs, bs) <==> bs == all[j]
    {
      assert EntryAgrees(p, j, h, regs) && ds[j].Ok?;
    }
    forall bs
      ensures Binds(p, Hash(h), regs, bs) <==> bs == Flat(all) + OthersBind(p.others, Without(h, keys))
    {
      if Binds(p, Hash(h), regs, bs) {
        var parts: seq<Bindings>, rest: Entries :|
          && |parts| == |p.entries| && bs == Flat(parts) + OthersBind(p.others, rest)
          && (p.others.Some? ==> IsRest(h, keys, rest))
          && forall j: nat :: j < |p.entries| ==> EntryBinds(p, j, h, regs, parts[j]);
        assert parts == all;
        if p.others.Some? {
          RestIsWithout(h, keys, rest);
        }
      }
    }
  }

  lemma EntryFacts(p: Pattern, j: nat, h: Entries, regs: Registers)
    requires p.Keyed? && WellFormed(p) && j < |p.entries| && EntryAgrees(p, j, h, regs)
    ensures EntryFits(p, j, h, regs) <==> EntryValue(p, j, h, regs).Ok?
    ensures forall e :: EntryRefuses(p, j, h, regs, e) <==> EntryValue(p, j, h, regs) == Err(e)
  {
    hide EntryValue, EntryBinds, EntryRefuses, Zip;
    var d := EntryValue(p, j, h, regs);
    if d.Ok? {
      assert EntryBinds(p, j, h, regs, Zip(Targets(p.entries[j]), d.value));
    }
  }

  lemma KeyedRefuses(p: Pattern, h: Entries, regs: Registers)
    requires p.Keyed? && WellFormed(p) && forall j: nat :: j < |p.entries| ==> EntryAgrees(p, j, h, regs)
    requires !AllOk(EntryValues(p, h, regs))
    ensures forall bs :: !Binds(p, Hash(h), regs, bs)
    ensures forall e :: Refuses(p, Hash(h), regs, e) <==> Collect(EntryValues(p, h, regs)) == Err(e)
  {
    hide EntryValue, EntryFits, EntryRefuses, Binds, Refuses, Collect, EntryAgrees;
    var ds := EntryValues(p, h, regs);
    forall j: nat | j < |p.entries|
      ensures EntryFits(p, j, h, regs) <==> ds[j].Ok?
      ensures forall e :: EntryRefuses(p, j, h, regs, e) <==> ds[j] == Err(e)
    {
      EntryFacts(p, j, h, regs);
    }
    var first := CollectErr(ds);
    forall e
      ensures Refuses(p, Hash(h), regs, e) <==> Collect(ds) == Err(e)
    {
      KeyedRefusal(p, h, regs, e);
      if j: nat :| j < |p.entries| && EntryFails(p, j, h, regs, e) {
        FailsOnce(ds, j, e);
      }
      if Collect(ds) == Err(e) {
        assert EntryFails(p, first, h, regs, e);
      }
    }
    forall bs
      ensures !Binds(p, Hash(h), regs, bs)
    {
      if Binds(p, Hash(h), regs, bs) {
        KeyedFits(p, h, regs, bs, first);
      }
    }
  }

  lemma KeyedAgrees(p: Pattern, h: Entries, regs: Registers)
    requires p.Keyed? && WellFormed(p) && forall j: nat :: j < |p.entries| ==> EntryAgrees(p, j, h, regs)
    ensures Agrees(p, Hash(h), regs, Denote(p, Hash(h), regs))
  {
    hide Collect, EntryValue, Flat, DenoteKeyed, TargetsOf, Without, KeyValues, IsRest, IsShare, Stored;
    var ds := EntryValues(p, h, regs);
    KeyedCollects(p, 0, h, regs);
    assert ds[0..] == ds;
    forall i: nat | i < |ds| && ds[i].Ok?
      ensures |ds[i].value| == |Targets(p.entries[i])|
    {
      assert EntryAgrees(p, i, h, regs);
    }
    if AllOk(ds) {
      CollectOk(ds, p.entries);
      KeyedBinds(p, h, regs);
      ZipOthers(TargetsOf(p.entries), Collect(ds).value, p.others, Without(h, KeyValues(p.keys, regs)));
      forall e
        ensures !Refuses(p, Hash(h), regs, e)
      {
        KeyedRefusal(p, h, regs, e);
        forall j: nat | j < |p.entries|
          ensures !EntryRefuses(p, j, h, regs, e)
        {
          assert EntryAgrees(p, j, h, regs) && ds[j].Ok?;
        }
      }
    } else {
      KeyedRefuses(p, h, regs);
      var first := CollectErr(ds);
    }
  }

  lemma ZipOthers(ts: seq<Target>, vs: seq<Value>, others: Option<Target>, rest: Entries)
    requires |ts| == |vs|
    ensures var more := if others.Some? then [others.value] else [];
            var last := if others.Some? then [Hash(rest)] else [];
            Zip(ts + more, vs + last) == Zip(ts, vs) + OthersBind(others, rest)
  {
  }

  lemma {:induction false} KeyedMeans(p: Pattern, v: Value, regs: Registers)
    requires p.Keyed? && WellFormed(p)
    ensures Agrees(p, v, regs, Denote(p, v, regs))
    decreases p, 0
  {
    if v.Hash? {
      forall j: nat | j < |p.entries|
        ensures EntryAgrees(p, j, v.entries, regs)
      {
        var found := Lookup(v.entries, Get(regs, p.keys[j]));
        if found.Some? {
          DenoteMeans(p.entries[j], found.value, regs);
        }
        EntryMeans(p, j, v.entries, regs);
      }
      KeyedAgrees(p, v.entries, regs);
    }
  }

  /** The assignments of a pattern, and its failures, are those the relations give. */
  lemma {:induction false} DenoteMeans(p: Pattern, v: Value, regs: Registers)
    requires WellFormed(p)
    ensures Agrees(p, v, regs, Denote(p, v, regs))
    decreases p, 1
  {
    hide Agrees;
    match p
    case Leaf(_) => LeafMeans(p, v, regs);
    case Group(_, _) => GroupMeans(p, v, regs);
    case Keyed(_, _, _) => KeyedMeans(p, v, regs);
  }

  // ---------------------------------------------------------------------------------
  // The compiled statement.

  function TargetsIn(bs: Bindings): (ts: seq<Target>)
    ensures |ts| == |bs|
  {
    seq(|bs|, i requires 0 <= i < |bs| => bs[i].0)
  }

  function ValuesIn(bs: Bindings): (vs: seq<Value>)
    ensures |vs| == |bs|
  {
    seq(|bs|, i requires 0 <= i < |bs| => bs[i].1)
  }

  lemma Unzip(ts: seq<Target>, vs: seq<Value>)
    requires |ts| == |vs|
    ensures TargetsIn(Zip(ts, vs)) == ts && ValuesIn(Zip(ts, vs)) == vs
  {
  }

  /** The assignments `bs` were made, one after the other, up to one that raises; the temporaries from
      `next` to `end` aside, nothing else changed. */
  ghost predicate Performed(st: State, bs: Bindings, c: Stores, out: Outcome, next: Register, end: Register) {
    && |bs| > 0 && Declared(TargetsIn(bs), c.locals)
    && var want := AssignAll(st, TargetsIn(bs), ValuesIn(bs), c.locals);
    && SameEnd(out, want) && Same(want.state, out.state, next, end)
    && (out.Running? ==> Get(out.state.regs, c.last) == bs[|bs| - 1].1)
  }

  /** A compiled statement makes the assignments the pattern asks for, or raises the error of the first
      place where the value has not the shape, with nothing stored; and it is always one of the two. */
  lemma CompileMeans(p: Pattern, rhs: seq<Register>, next: Register, locals: Locals, st: State)
    requires Placed(p, rhs, next, locals)
    ensures var c := Compile(p, rhs, next, locals);
            var out, v, end := Run(c.code, st), RightHandSide(rhs, st.regs), TemporariesEnd(p, rhs, next);
            && (forall bs :: Binds(p, v, st.regs, bs) ==> Performed(st, bs, c, out, next, end))
            && (forall e :: Refuses(p, v, st.regs, e) ==> out == Raised(e, out.state) && Same(st, out.state, next, end))
            && ((exists bs :: Binds(p, v, st.regs, bs)) <==> !exists e :: Refuses(p, v, st.regs, e))
  {
    hide Compile, Run, Denote, Binds, Refuses, Targets, AssignAll, Same, Zip, RightHandSide, TemporariesEnd, WellFormed;
    var c := Compile(p, rhs, next, locals);
    var out, v, end := Run(c.code, st), RightHandSide(rhs, st.regs), TemporariesEnd(p, rhs, next);
    CompileCorrect(p, rhs, next, locals, st);
    DenoteMeans(p, v, st.regs);
    var d := Denote(p, v, st.regs);
    if d.Ok? {
      Unzip(Targets(p), d.value);
      LastZipped(Targets(p), d.value);
      assert Binds(p, v, st.regs, Zip(Targets(p), d.value));
    } else {
      assert Refuses(p, v, st.regs, d.error);
    }
  }

  lemma LastZipped(ts: seq<Target>, vs: seq<Value>)
    requires |ts| == |vs| > 0
    ensures Zip(ts, vs)[|ts| - 1] == (ts[|ts| - 1], vs[|vs| - 1])
  {
  }

  /** The target `t` was last given `v`. */
  ghost predicate Given(st: State, t: Target, v: Value, locals: Locals) {
    if t.Local? then t.name in locals && Get(st.regs, locals[t.name]) == v
    else |st.effects| > 0 && st.effects[|st.effects| - 1].stored == v
  }

  lemma LastGiven(st: State, ts: seq<Target>, vs: seq<Value>, locals: Locals)
    requires |ts| == |vs| > 0 && Declared(ts, locals) && AssignAll(st, ts, vs, locals).Running?
    ensures Given(AssignAll(st, ts, vs, locals).state, ts[|ts| - 1], vs[|vs| - 1], locals)
  {
    var n := |ts| - 1;
    assert Declared(ts[..n], locals);
    var before := AssignAll(st, ts[..n], vs[..n], locals).state;
    assert AssignAll(st, ts, vs, locals) == Assign(before, ts[n], vs[n], locals);
  }

  lemma CompiledLocals(p: Pattern, rhs: seq<Register>, next: Register, locals: Locals)
    requires Placed(p, rhs, next, locals)
    ensures var c, end := Compile(p, rhs, next, locals), TemporariesEnd(p, rhs, next);
            next <= end && LocalsOutside(c.locals, next, end, c.next)
  {
    hide Extract, Targets, StoreAll, WellFormed, KeysBelow;
    var value := Gather(rhs, next);
    var e := Extract(p, value.values[0], value.next);
    ExtractCount(p, value.values[0], value.next);
    ExtractNext(p, value.values[0], value.next);
    StoreAllLocals(Targets(p), e.values, e.next, locals, next, e.next);
  }

  /** `{k: a, ..., **r} = h`: what `r` is given has, in order, the entries of `h` whose keys are not
      named, and every key finds in it what it finds in `h`, or nothing if it is named. */
  lemma OthersStored(p: Pattern, rhs: seq<Register>, next: Register, locals: Locals, st: State) returns (rest: Entries)
    requires Placed(p, rhs, next, locals) && p.Keyed? && p.others.Some?
    requires Run(Compile(p, rhs, next, locals).code, st).Running?
    ensures var out, h := Run(Compile(p, rhs, next, locals).code, st).state, RightHandSide(rhs, st.regs);
            var named := KeyValues(p.keys, st.regs);
            && Given(out, p.others.value, Hash(rest), Compile(p, rhs, next, locals).locals)
            && h.Hash? && IsRest(h.entries, named, rest)
            && (forall key, w :: Stored(rest, key, w) <==> key !in named && Stored(h.entries, key, w))
            && (forall key :: Absent(rest, key) <==> key in named || Absent(h.entries, key))
  {
    hide Compile, Run, Denote, AssignAll, Stored, Absent, IsRest, RightHandSide, TemporariesEnd, WellFormed;
    var c := Compile(p, rhs, next, locals);
    var out, v, end := Run(c.code, st).state, RightHandSide(rhs, st.regs), TemporariesEnd(p, rhs, next);
    var named := KeyValues(p.keys, st.regs);
    CompileCorrect(p, rhs, next, locals, st);
    var vs := Denote(p, v, st.regs).value;
    KeyedShape(p, v, st.regs);
    rest := Without(v.entries, named);
    WithoutIsRest(v.entries, named);
    var want := AssignAll(st, Targets(p), vs, c.locals);
    LastGiven(st, Targets(p), vs, c.locals);
    CompiledLocals(p, rhs, next, locals);
    GivenSame(want.state, out, p.others.value, Hash(rest), c.locals, next, end, c.next);
    forall key
      ensures Absent(rest, key) <==> key in named || Absent(v.entries, key)
      ensures forall w :: Stored(rest, key, w) <==> key !in named && Stored(v.entries, key, w)
    {
      RestLookup(v.entries, named, rest, key);
    }
  }

  lemma GivenSame(a: State, b: State, t: Target, v: Value, locals: Locals, next: Register, end: Register, limit: Register)
    requires Same(a, b, next, end) && Given(a, t, v, locals) && LocalsOutside(locals, next, end, limit)
    ensures Given(b, t, v, locals)
  {
  }

  lemma KeyedShape(p: Pattern, v: Value, regs: Registers)
    requires p.Keyed? && WellFormed(p) && p.others.Some? && Denote(p, v, regs).Ok?
    ensures v.Hash? && |Targets(p)| > 0 && Targets(p)[|Targets(p)| - 1] == p.others.value
    ensures var vs := Denote(p, v, regs).value;
            |vs| > 0 && vs[|vs| - 1] == Hash(Without(v.entries, KeyValues(p.keys, regs)))
  {
    hide WellFormed, Collect, Without, KeyValues, DenoteKeyed, TargetsOf;
    KeyedCollects(p, 0, v.entries, regs);
  }
}
