/** Strings that end at their first zero byte. */
module CString {
  function Cut(t: string): string {
    if t == "" || t[0] == '\0' then "" else [t[0]] + Cut(t[1..])
  }

  lemma {:induction false} CutKeeps(t: string)
    requires '\0' !in t
    ensures Cut(t) == t
  {
    if t != "" {
      CutKeeps(t[1..]);
      assert [t[0]] + t[1..] == t;
    }
  }

  /** `r` is `t` up to its first zero byte, or all of it when there is none. */
  ghost predicate UpToZero(t: string, r: string) {
    r <= t && '\0' !in r && (|r| < |t| ==> t[|r|] == '\0')
  }

  lemma {:induction false} CutMeans(t: string, r: string)
    ensures r == Cut(t) <==> UpToZero(t, r)
  {
    if t != "" && t[0] != '\0' {
      if r != "" {
        CutMeans(t[1..], r[1..]);
        assert r == [r[0]] + r[1..];
        assert '\0' in r[1..] ==> '\0' in r;
      }
    }
  }

  lemma CutStep(t: string, n: nat)
    requires n < |t| && t[n] != '\0'
    ensures t[..n] + Cut(t[n..]) == t[..n + 1] + Cut(t[n + 1..])
  {
    assert t[n..][1..] == t[n + 1..];
    assert t[..n + 1] == t[..n] + [t[n]];
  }

  lemma CutEnd(t: string, n: nat)
    requires n <= |t| && (n < |t| ==> t[n] == '\0')
    ensures t[..n] + Cut(t[n..]) == t[..n]
  {
  }

  /** The string up to its first zero byte. */
  method CopyString(t: string) returns (r: string)
    ensures r == Cut(t)
  {
    hide Cut;
    var n := 0;
    assert t[0..] == t && t[..0] == "";
    while n < |t| && t[n] != '\0'
      invariant 0 <= n <= |t| && Cut(t) == t[..n] + Cut(t[n..])
    {
      CutStep(t, n);
      n := n + 1;
    }
    CutEnd(t, n);
    r := t[..n];
  }
}
