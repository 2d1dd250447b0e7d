/** Positional numbers: little-endian digit sequences in any base, and their values. */
module Positional {

  function Pow(b: nat, k: nat): nat {
    if k == 0 then 1 else b * Pow(b, k - 1)
  }

  /** The number with digits `s`, the least significant one first. */
  function Val(b: nat, s: seq<nat>): nat {
    if |s| == 0 then 0 else s[0] + b * Val(b, s[1..])
  }

  predicate Digits(b: nat, s: seq<nat>) {
    forall i :: 0 <= i < |s| ==> s[i] < b
  }

  /** No leading zero. */
  predicate Trimmed(s: seq<nat>) {
    |s| > 0 ==> s[|s| - 1] != 0
  }

  lemma {:induction false} PowPositive(b: nat, k: nat)
    requires b > 0
    ensures Pow(b, k) > 0
  {
    if k > 0 {
      PowPositive(b, k - 1);
    }
  }

  lemma {:induction false} PowAdd(b: nat, j: nat, k: nat)
    ensures Pow(b, j + k) == Pow(b, j) * Pow(b, k)
  {
    if j > 0 {
      PowAdd(b, j - 1, k);
      assert Pow(b, j + k) == b * (Pow(b, j - 1) * Pow(b, k));
      MulAssociative(b, Pow(b, j - 1), Pow(b, k));
    }
  }

  lemma MulAssociative(x: int, y: int, z: int)
    ensures x * (y * z) == (x * y) * z
  {
  }

  lemma MulDistributes(x: int, y: int, z: int)
    ensures x * (y + z) == x * y + x * z
    ensures (y + z) * x == y * x + z * x
  {
  }

  lemma MulMonotone(x: nat, y: int, z: int)
    requires y <= z
    ensures x * y <= x * z && y * x <= z * x
  {
  }

  lemma {:induction false} PowMonotone(b: nat, j: nat, k: nat)
    requires b > 0 && j <= k
    ensures Pow(b, j) <= Pow(b, k)
  {
    if j < k {
      PowMonotone(b, j, k - 1);
      PowPositive(b, k - 1);
      MulMonotone(Pow(b, k - 1), 1, b);
    }
  }

  /** Appending a most significant digit. */
  lemma {:induction false} ValAppend(b: nat, s: seq<nat>, d: nat)
    ensures Val(b, s + [d]) == Val(b, s) + d * Pow(b, |s|)
  {
    if |s| == 0 {
      assert s + [d] == [d];
      assert Val(b, [d]) == d + b * Val(b, [d][1..]);
    } else {
      assert (s + [d])[0] == s[0] && (s + [d])[1..] == s[1..] + [d];
      ValAppend(b, s[1..], d);
      MulDistributes(b, Val(b, s[1..]), d * Pow(b, |s| - 1));
      assert b * (d * Pow(b, |s| - 1)) == d * (b * Pow(b, |s| - 1));
    }
  }

  lemma ValSnoc(b: nat, s: seq<nat>, k: nat)
    requires k < |s|
    ensures Val(b, s[..k + 1]) == Val(b, s[..k]) + s[k] * Pow(b, k)
  {
    assert s[..k + 1] == s[..k] + [s[k]];
    ValAppend(b, s[..k], s[k]);
  }

  lemma {:induction false} ValConcat(b: nat, s: seq<nat>, t: seq<nat>)
    ensures Val(b, s + t) == Val(b, s) + Pow(b, |s|) * Val(b, t)
    decreases |s|
  {
    if |s| == 0 {
      assert s + t == t;
    } else {
      assert (s + t)[0] == s[0] && (s + t)[1..] == s[1..] + t;
      ValConcat(b, s[1..], t);
      MulDistributes(b, Val(b, s[1..]), Pow(b, |s| - 1) * Val(b, t));
      MulAssociative(b, Pow(b, |s| - 1), Val(b, t));
    }
  }

  lemma ValSplit(b: nat, s: seq<nat>, k: nat)
    requires k <= |s|
    ensures Val(b, s) == Val(b, s[..k]) + Pow(b, k) * Val(b, s[k..])
  {
    assert s == s[..k] + s[k..];
    ValConcat(b, s[..k], s[k..]);
  }

  lemma {:induction false} ValBound(b: nat, s: seq<nat>)
    requires Digits(b, s) && b > 0
    ensures Val(b, s) < Pow(b, |s|)
  {
    if |s| > 0 {
      ValBound(b, s[1..]);
      MulMonotone(b, Val(b, s[1..]), Pow(b, |s| - 1) - 1);
      MulDistributes(b, Pow(b, |s| - 1), -1);
    }
  }

  lemma {:induction false} ValZeros(b: nat, s: seq<nat>)
    requires forall i :: 0 <= i < |s| ==> s[i] == 0
    ensures Val(b, s) == 0
  {
    if |s| > 0 {
      ValZeros(b, s[1..]);
    }
  }

  /** Zeros at the significant end do not matter. */
  lemma ValTrim(b: nat, s: seq<nat>, k: nat)
    requires k <= |s| && forall i :: k <= i < |s| ==> s[i] == 0
    ensures Val(b, s[..k]) == Val(b, s)
  {
    ValSplit(b, s, k);
    ValZeros(b, s[k..]);
  }

  lemma ValLeading(b: nat, s: seq<nat>)
    requires |s| > 0 && Trimmed(s) && b > 0
    ensures Val(b, s) >= Pow(b, |s| - 1)
  {
    ValSnoc(b, s, |s| - 1);
    assert s[..|s|] == s;
    PowPositive(b, |s| - 1);
    MulMonotone(Pow(b, |s| - 1), 1, s[|s| - 1]);
  }

  /** The value decides the number of digits and every digit. */
  lemma {:induction false} ValInjective(b: nat, s: seq<nat>, t: seq<nat>)
    requires b > 0 && Digits(b, s) && Digits(b, t) && Trimmed(s) && Trimmed(t) && Val(b, s) == Val(b, t)
    ensures s == t
  {
    if |s| < |t| {
      ValLonger(b, s, t);
    } else if |t| < |s| {
      ValLonger(b, t, s);
    } else {
      ValInjectiveSameLength(b, s, t);
    }
  }

  lemma {:induction false} ValInjectiveSameLength(b: nat, s: seq<nat>, t: seq<nat>)
    requires b > 0 && Digits(b, s) && Digits(b, t) && |s| == |t| && Val(b, s) == Val(b, t)
    ensures s == t
  {
    if |s| > 0 {
      DigitSplit(b, s[0], Val(b, s[1..]), t[0], Val(b, t[1..]));
      ValInjectiveSameLength(b, s[1..], t[1..]);
      assert s == [s[0]] + s[1..] && t == [t[0]] + t[1..];
    }
  }

  lemma DigitSplit(b: nat, d: nat, x: nat, e: nat, y: nat)
    requires d < b && e < b && d + b * x == e + b * y
    ensures d == e && x == y
  {
    if x < y {
      MulMonotone(b, x + 1, y);
      MulDistributes(b, x, 1);
    } else if y < x {
      MulMonotone(b, y + 1, x);
      MulDistributes(b, y, 1);
    }
  }

  lemma ValLonger(b: nat, s: seq<nat>, t: seq<nat>)
    requires b > 0 && Digits(b, s) && Trimmed(t) && |s| < |t|
    ensures Val(b, s) < Val(b, t)
  {
    ValBound(b, s);
    ValLeading(b, t);
    PowMonotone(b, |s|, |t| - 1);
  }

  /** The most significant difference decides. */
  lemma ValLess(b: nat, s: seq<nat>, t: seq<nat>, k: nat)
    requires b > 0 && Digits(b, s) && |s| == |t| && k < |s|
    requires s[k] < t[k] && s[k + 1..] == t[k + 1..]
    ensures Val(b, s) < Val(b, t)
  {
    ValSplit(b, s, k + 1);
    ValSplit(b, t, k + 1);
    ValSnoc(b, s, k);
    ValSnoc(b, t, k);
    ValBound(b, s[..k]);
    MulMonotone(Pow(b, k), s[k] + 1, t[k]);
    MulDistributes(Pow(b, k), s[k], 1);
  }

  /** One digit and a carry: `x` in the place worth `p`. */
  lemma CarryStep(b: nat, x: nat, p: nat)
    requires b > 0
    ensures x * p == (x % b) * p + (x / b) * (b * p)
    ensures x % b < b
  {
    assert x == (x / b) * b + x % b;
    MulDistributes(p, (x / b) * b, x % b);
    MulAssociative(x / b, b, p);
  }

  /** A number as large as its top place has a top digit. */
  lemma ValTopDigit(b: nat, s: seq<nat>)
    requires b > 0 && Digits(b, s) && |s| > 0 && Val(b, s) >= Pow(b, |s| - 1)
    ensures Trimmed(s)
  {
    ValSnoc(b, s, |s| - 1);
    assert s[..|s|] == s;
    ValBound(b, s[..|s| - 1]);
  }
}
