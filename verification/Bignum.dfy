/** Signed integers of any size: a plain 64-bit integer when the value fits, otherwise sign
    and magnitude. Every operation returns the one canonical form of the exact result. */
module Bignum {
  import opened Positional
  import opened Magnitude

  const INT64_MIN: int := -0x8000_0000_0000_0000
  const INT64_MAX: int := 0x7FFF_FFFF_FFFF_FFFF

  datatype Integer = Small(i: int) | Big(negative: bool, limbs: seq<U32>)

  function Signed(negative: bool, magnitude: nat): int {
    if negative then 0 - magnitude else magnitude
  }

  function Meaning(v: Integer): int {
    match v
    case Small(i) => i
    case Big(negative, limbs) => Signed(negative, Mag(limbs))
  }

  predicate FitsInt64(x: int) {
    INT64_MIN <= x <= INT64_MAX
  }

  /** A plain integer exactly when the value fits, otherwise trimmed limbs. */
  ghost predicate Canonical(v: Integer) {
    match v
    case Small(i) => FitsInt64(i)
    case Big(negative, limbs) => Limbs(limbs) && Trimmed(limbs) && !FitsInt64(Signed(negative, Mag(limbs)))
  }

  /** Each integer has one canonical representation. */
  lemma CanonicalUnique(v: Integer, w: Integer)
    requires Canonical(v) && Canonical(w) && Meaning(v) == Meaning(w)
    ensures v == w
  {
    if v.Big? && w.Big? {
      assert v.negative == w.negative;
      ValInjective(BASE, v.limbs, w.limbs);
    }
  }

  /** An operand: sign and limbs, borrowed or spelled out in a small buffer. */
  datatype View = View(negative: bool, limbs: array<U32>, count: nat)

  ghost predicate ValidView(v: View)
    reads v.limbs
  {
    v.count <= v.limbs.Length && Limbs(v.limbs[..v.count]) && Trimmed(v.limbs[..v.count])
  }

  ghost function Viewed(v: View): int
    requires ValidView(v)
    reads v.limbs
  {
    Signed(v.negative, Mag(v.limbs[..v.count]))
  }

  // ---------------------------------------------------------------------------------
  // Between 64-bit integers and limbs.

  lemma PowBase()
    ensures Pow(BASE, 0) == 1 && Pow(BASE, 1) == 1_000_000_000
    ensures Pow(BASE, 2) == 1_000_000_000_000_000_000
    ensures Pow(BASE, 3) == 1_000_000_000_000_000_000_000_000_000
  {
    assert Pow(BASE, 1) == BASE * Pow(BASE, 0);
    assert Pow(BASE, 2) == BASE * Pow(BASE, 1);
    assert Pow(BASE, 3) == BASE * Pow(BASE, 2);
  }

  /** What is left after `count` limbs of a 64-bit number. */
  predicate LeftAfter(count: nat, rest: nat) {
    match count
    case 0 => rest < 0x1_0000_0000_0000_0000
    case 1 => rest <= 18_446_744_073
    case 2 => rest <= 18
    case 3 => rest == 0
    case _ => false
  }

  lemma LeftAfterStep(count: nat, rest: nat)
    requires LeftAfter(count, rest) && rest > 0
    ensures count < 3 && LeftAfter(count + 1, rest / BASE)
  {
  }

  lemma UnpackStep(r: seq<nat>, count: nat, rest: nat, total: nat)
    requires |r| == count + 1 && r[count] == rest % BASE
    requires rest * Pow(BASE, count) + Mag(r[..count]) == total
    ensures (rest / BASE) * Pow(BASE, count + 1) + Mag(r) == total
  {
    hide Val;
    ValSnoc(BASE, r, count);
    assert r[..count + 1] == r;
    CarryStep(BASE, rest, Pow(BASE, count));
  }

  /** The limbs of the absolute value of a 64-bit integer, the smallest one included. */
  method Int64ToMagnitude(value: int, limbs: array<U32>) returns (count: nat)
    requires FitsInt64(value) && limbs.Length >= 3
    modifies limbs
    ensures count <= 3 && Limbs(limbs[..count]) && Trimmed(limbs[..count])
    ensures Mag(limbs[..count]) == if value < 0 then -value else value
  {
    hide Val, Pow;
    var magnitude: U64 := if value < 0 then -(value + 1) + 1 else value;
    ghost var total := magnitude;
    count := 0;
    ValZeros(BASE, limbs[..0]);
    PowBase();
    while magnitude > 0
      invariant LeftAfter(count, magnitude) && Limbs(limbs[..count])
      invariant magnitude * Pow(BASE, count) + Mag(limbs[..count]) == total
      invariant magnitude == 0 ==> Trimmed(limbs[..count])
    {
      LeftAfterStep(count, magnitude);
      ghost var rest := magnitude;
      ghost var before := limbs[..count];
      limbs[count] := magnitude % BASE;
      assert limbs[..count + 1] == before + [rest % BASE];
      UnpackStep(limbs[..count + 1], count, rest, total);
      magnitude := magnitude / BASE;
      count := count + 1;
    }
  }

  /** Horner's rule: what the limbs from `i` on are worth. */
  lemma HornerStep(s: seq<nat>, i: nat)
    requires 0 < i <= |s|
    ensures Mag(s[i - 1..]) == Mag(s[i..]) * BASE + s[i - 1]
  {
    assert s[i - 1..][1..] == s[i..];
  }

  lemma SuffixAtMost(s: seq<nat>, i: nat)
    requires i <= |s|
    ensures Mag(s[i..]) <= Mag(s)
  {
    ValSplit(BASE, s, i);
    PowPositive(BASE, i);
    MulMonotone(Mag(s[i..]), 1, Pow(BASE, i));
  }

  /** The signed value if it fits 64 bits. */
  method MagnitudeToInt64(limbs: array<U32>, count: nat, negative: bool) returns (fits: bool, out: int)
    requires count <= limbs.Length && Limbs(limbs[..count]) && Trimmed(limbs[..count])
    ensures fits <==> FitsInt64(Signed(negative, Mag(limbs[..count])))
    ensures fits ==> out == Signed(negative, Mag(limbs[..count]))
  {
    hide Val, Pow;
    ghost var s := limbs[..count];
    PowBase();
    if count > 3 {
      ValLeading(BASE, s);
      PowMonotone(BASE, 3, count - 1);
      return false, 0;
    }
    var magnitude: U64 := 0;
    var i := count;
    ValZeros(BASE, s[count..]);
    while i > 0
      invariant 0 <= i <= count && magnitude == Mag(s[i..])
    {
      HornerStep(s, i);
      if magnitude > (0xFFFF_FFFF_FFFF_FFFF - limbs[i - 1]) / BASE {
        SuffixAtMost(s, i - 1);
        return false, 0;
      }
      magnitude := magnitude * BASE + limbs[i - 1];
      i := i - 1;
    }
    assert s[0..] == s;
    if negative {
      if magnitude > 0x8000_0000_0000_0000 {
        return false, 0;
      }
      out := if magnitude == 0x8000_0000_0000_0000 then INT64_MIN else 0 - magnitude;
    } else {
      if magnitude > 0x7FFF_FFFF_FFFF_FFFF {
        return false, 0;
      }
      out := magnitude;
    }
    fits := true;
  }

  /** The canonical form of a sign and a trimmed magnitude. */
  method Canonicalize(negative: bool, limbs: array<U32>, count: nat) returns (v: Integer)
    requires count <= limbs.Length && Limbs(limbs[..count]) && Trimmed(limbs[..count])
    ensures Canonical(v) && Meaning(v) == Signed(negative, Mag(limbs[..count]))
  {
    if count == 0 {
      return Small(0);
    }
    var fits, small := MagnitudeToInt64(limbs, count, negative);
    v := if fits then Small(small) else Big(negative, limbs[..count]);
  }

  /** A view of any integer. */
  method ViewOf(v: Integer) returns (view: View)
    requires Canonical(v)
    ensures fresh(view.limbs) && ValidView(view) && Viewed(view) == Meaning(v)
    ensures view.negative ==> Viewed(view) < 0
  {
    match v
    case Big(negative, limbs) =>
      var borrowed := new U32[|limbs|](i requires 0 <= i < |limbs| => limbs[i]);
      assert borrowed[..|limbs|] == limbs;
      view := View(negative, borrowed, |limbs|);
    case Small(i) =>
      var buffer := new U32[3];
      var count := Int64ToMagnitude(i, buffer);
      view := View(i < 0, buffer, count);
  }

  // ---------------------------------------------------------------------------------
  // Addition, subtraction, negation, multiplication, comparison.

  method AddViews(left: View, right: View) returns (v: Integer)
    requires ValidView(left) && ValidView(right)
    ensures Canonical(v) && Meaning(v) == Viewed(left) + Viewed(right)
  {
    hide Val;
    var result := new U32[(if left.count > right.count then left.count else right.count) + 1];
    if left.negative == right.negative {
      var count := Add(left.limbs, left.count, right.limbs, right.count, result);
      v := Canonicalize(left.negative, result, count);
    } else {
      var comparison := Compare(left.limbs, left.count, right.limbs, right.count);
      if comparison == 0 {
        v := Small(0);
      } else if comparison > 0 {
        var count := Subtract(left.limbs, left.count, right.limbs, right.count, result);
        v := Canonicalize(left.negative, result, count);
      } else {
        var count := Subtract(right.limbs, right.count, left.limbs, left.count, result);
        v := Canonicalize(right.negative, result, count);
      }
    }
  }

  method SubtractViews(left: View, right: View) returns (v: Integer)
    requires ValidView(left) && ValidView(right)
    ensures Canonical(v) && Meaning(v) == Viewed(left) - Viewed(right)
  {
    v := AddViews(left, right.(negative := !right.negative));
  }

  method Negate(value: View) returns (v: Integer)
    requires ValidView(value)
    ensures Canonical(v) && Meaning(v) == -Viewed(value)
  {
    v := Canonicalize(!value.negative, value.limbs, value.count);
  }

  method MultiplyViews(left: View, right: View) returns (v: Integer)
    requires ValidView(left) && ValidView(right)
    ensures Canonical(v) && Meaning(v) == Viewed(left) * Viewed(right)
  {
    hide Val;
    var result := new U32[left.count + right.count];
    var count := Multiply(left.limbs, left.count, right.limbs, right.count, result);
    v := Canonicalize(left.negative != right.negative, result, count);
    SignedProduct(left.negative, right.negative, Mag(left.limbs[..left.count]), Mag(right.limbs[..right.count]));
  }

  lemma SignedProduct(m: bool, n: bool, x: nat, y: nat)
    ensures x * y >= 0 && Signed(m != n, x * y) == Signed(m, x) * Signed(n, y)
  {
    MulMonotone(x, 0, y);
    MulDistributes(x, y, 0 - y);
    MulDistributes(y, x, 0 - x);
    MulDistributes(0 - x, y, 0 - y);
  }

  /** The sign of the difference of two integers. */
  method CompareViews(left: View, right: View) returns (c: int)
    requires ValidView(left) && ValidView(right)
    requires left.negative ==> Viewed(left) < 0
    requires right.negative ==> Viewed(right) < 0
    ensures c == (if Viewed(left) < Viewed(right) then -1 else if Viewed(left) > Viewed(right) then 1 else 0)
  {
    if left.negative != right.negative {
      return if left.negative then -1 else 1;
    }
    c := Compare(left.limbs, left.count, right.limbs, right.count);
    c := if left.negative then -c else c;
  }

  // ---------------------------------------------------------------------------------
  // Floored division and modulo.

  /** Division rounded toward minus infinity. Dafny's own division does that for positive
      divisors. */
  function FloorDiv(x: int, y: int): int
    requires y != 0
  {
    if y > 0 then x / y else (-x) / (-y)
  }

  function FloorMod(x: int, y: int): int
    requires y != 0
  {
    x - y * FloorDiv(x, y)
  }

  /** The two belong together, and the remainder is zero or has the divisor's sign. */
  lemma DivModLaw(x: int, y: int)
    requires y != 0
    ensures x == y * FloorDiv(x, y) + FloorMod(x, y)
    ensures if y > 0 then 0 <= FloorMod(x, y) < y else y < FloorMod(x, y) <= 0
  {
    if y < 0 {
      MulNegate(-y, FloorDiv(x, y));
    }
  }

  lemma MulNegate(x: int, y: int)
    ensures (-x) * y == -(x * y) && x * (-y) == -(x * y)
  {
    MulDistributes(y, x, -x);
    MulDistributes(x, y, -y);
  }

  /** Quotient and remainder are decided by their law. */
  lemma FloorUnique(x: int, y: int, q: int, r: int)
    requires y != 0 && x == y * q + r && (if y > 0 then 0 <= r < y else y < r <= 0)
    ensures q == FloorDiv(x, y) && r == FloorMod(x, y)
  {
    DivModLaw(x, y);
    var p := FloorDiv(x, y);
    MulDistributes(y, q, -p);
    MulNegate(y, p);
    assert y * (q - p) == FloorMod(x, y) - r;
    Multiple(y, q - p);
  }

  lemma Multiple(y: int, d: int)
    ensures d >= 1 && y > 0 ==> y * d >= y
    ensures d >= 1 && y < 0 ==> y * d <= y
    ensures d <= -1 && y > 0 ==> y * d <= -y
    ensures d <= -1 && y < 0 ==> y * d >= -y
  {
    MulNegate(-y, d);
    if d >= 1 {
      MulMonotone(if y >= 0 then y else -y, 1, d);
    } else if d <= -1 {
      MulMonotone(if y >= 0 then y else -y, d, -1);
    }
  }

  /** From the division of the magnitudes to the floored quotient and remainder. */
  lemma FloorFromMagnitudes(m: bool, n: bool, x: nat, y: nat, q: nat, r: nat)
    requires y > 0 && x == q * y + r && r < y
    ensures m == n ==>
      FloorDiv(Signed(m, x), Signed(n, y)) == q && FloorMod(Signed(m, x), Signed(n, y)) == Signed(n, r)
    ensures m != n && r == 0 ==>
      FloorDiv(Signed(m, x), Signed(n, y)) == 0 - q && FloorMod(Signed(m, x), Signed(n, y)) == 0
    ensures m != n && r != 0 ==>
      FloorDiv(Signed(m, x), Signed(n, y)) == 0 - (q + 1) && FloorMod(Signed(m, x), Signed(n, y)) == Signed(n, y - r)
  {
    MulNegate(y, q);
    MulNegate(y, q + 1);
    MulNegate(0 - y, 0 - q);
    MulDistributes(y, q, 1);
    if m == n {
      FloorUnique(Signed(m, x), Signed(n, y), q, Signed(n, r));
    } else if r == 0 {
      FloorUnique(Signed(m, x), Signed(n, y), 0 - q, 0);
    } else {
      MulNegate(y, 0 - (q + 1));
      FloorUnique(Signed(m, x), Signed(n, y), 0 - (q + 1), Signed(n, y - r));
    }
  }

  method DivideFloored(left: View, right: View) returns (v: Integer)
    requires ValidView(left) && ValidView(right) && Viewed(right) != 0
    ensures Canonical(v) && Meaning(v) == FloorDiv(Viewed(left), Viewed(right))
  {
    hide Val, FloorDiv, FloorMod;
    var quotient := new U32[left.count + 1];
    var remainder := new U32[right.count + 1];
    ghost var x, y := Mag(left.limbs[..left.count]), Mag(right.limbs[..right.count]);
    var quotientCount, remainderCount :=
      Divide(left.limbs, left.count, right.limbs, right.count, quotient, remainder);
    ghost var q, r := Mag(quotient[..quotientCount]), Mag(remainder[..remainderCount]);
    FloorFromMagnitudes(left.negative, right.negative, x, y, q, r);
    ZeroMagnitude(remainder[..remainderCount]);
    ZeroMagnitude(left.limbs[..left.count]);
    var negative := left.negative != right.negative;
    var trimmed := Trim(remainder, remainderCount);
    ZeroMagnitude(remainder[..trimmed]);
    if negative && trimmed != 0 {
      var one := new U32[1](_ => 1);
      ValOne(one[..1]);
      assert left.count > 0 by {
        SmallDividend(x, y, q, r);
      }
      quotientCount := Add(quotient, quotientCount, one, 1, quotient);
    }
    v := Canonicalize(negative, quotient, quotientCount);
  }

  lemma ZeroMagnitude(s: seq<nat>)
    requires Limbs(s) && Trimmed(s)
    ensures Mag(s) == 0 <==> |s| == 0
  {
    if |s| > 0 {
      ValLeading(BASE, s);
      PowPositive(BASE, |s| - 1);
    }
  }

  lemma ValOne(s: seq<nat>)
    requires s == [1]
    ensures Mag(s) == 1 && Trimmed(s)
  {
    assert s == [] + [1];
    ValAppend(BASE, [], 1);
  }

  lemma SmallDividend(x: nat, y: nat, q: nat, r: nat)
    requires x == q * y + r && r > 0
    ensures x > 0
  {
    MulMonotone(q, 0, y);
  }

  method ModuloFloored(left: View, right: View) returns (v: Integer)
    requires ValidView(left) && ValidView(right) && Viewed(right) != 0
    ensures Canonical(v) && Meaning(v) == FloorMod(Viewed(left), Viewed(right))
  {
    hide Val, FloorDiv, FloorMod;
    var quotient := new U32[if left.count == 0 then 1 else left.count];
    var remainder := new U32[right.count + 1];
    var complement := new U32[right.count + 1];
    ghost var x, y := Mag(left.limbs[..left.count]), Mag(right.limbs[..right.count]);
    var quotientCount, remainderCount :=
      Divide(left.limbs, left.count, right.limbs, right.count, quotient, remainder);
    FloorFromMagnitudes(left.negative, right.negative, x, y, Mag(quotient[..quotientCount]),
                        Mag(remainder[..remainderCount]));
    remainderCount := Trim(remainder, remainderCount);
    ZeroMagnitude(remainder[..remainderCount]);
    if remainderCount == 0 {
      v := Small(0);
    } else if left.negative == right.negative {
      v := Canonicalize(right.negative, remainder, remainderCount);
    } else {
      var count := Subtract(right.limbs, right.count, remainder, remainderCount, complement);
      v := Canonicalize(right.negative, complement, count);
    }
  }
}
