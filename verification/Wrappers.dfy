module Wrappers {
  datatype Option<+T> = None | Some(value: T)

  /** Those read already, then those read on. */
  ghost function Added<T, R>(done: seq<T>, r: Option<(seq<T>, R)>): Option<(seq<T>, R)> {
    match r
    case None => None
    case Some(more) => Some((done + more.0, more.1))
  }

  lemma AddedNone<T, R>(r: Option<(seq<T>, R)>)
    ensures Added([], r) == r
  {
    if r.Some? {
      assert [] + r.value.0 == r.value.0;
    }
  }

  lemma AddedEnd<T, R>(done: seq<T>, rest: R)
    ensures Added(done, Some(([], rest))) == Some((done, rest))
  {
    assert done + [] == done;
  }

  lemma AddedStep<T, R>(done: seq<T>, x: T, r: Option<(seq<T>, R)>)
    ensures r.None? ==> Added(done + [x], r).None?
    ensures r.Some? ==> Added(done, Some(([x] + r.value.0, r.value.1))) == Added(done + [x], r)
  {
    if r.Some? {
      assert done + ([x] + r.value.0) == done + [x] + r.value.0;
    }
  }
}
