/** The `magnitude_*` helpers: unsigned arithmetic on little-endian arrays of base 10^9 limbs.
    The types of the intermediate results are the source's 64-bit ones. */
module Magnitude {
  import opened Positional

  const BASE: nat := 1_000_000_000

  type U32 = x: nat | x < 0x1_0000_0000
  type U64 = x: nat | x < 0x1_0000_0000_0000_0000

  function Mag(s: seq<nat>): nat {
    Val(BASE, s)
  }

  /** Limbs in range. */
  predicate Limbs(s: seq<nat>) {
    Digits(BASE, s)
  }

  /** The count without leading zeros. */
  method Trim(limbs: array<U32>, count: nat) returns (n: nat)
    requires count <= limbs.Length
    ensures n <= count && Trimmed(limbs[..n]) && Mag(limbs[..n]) == Mag(limbs[..count])
  {
    n := count;
    while n > 0 && limbs[n - 1] == 0
      invariant n <= count && forall i :: n <= i < count ==> limbs[i] == 0
    {
      n := n - 1;
    }
    ValTrim(BASE, limbs[..count], n);
    assert limbs[..count][..n] == limbs[..n];
  }

  /** Compares two trimmed magnitudes by value. */
  method Compare(a: array<U32>, aCount: nat, b: array<U32>, bCount: nat) returns (c: int)
    requires aCount <= a.Length && bCount <= b.Length
    requires Limbs(a[..aCount]) && Limbs(b[..bCount]) && Trimmed(a[..aCount]) && Trimmed(b[..bCount])
    ensures c == (if Mag(a[..aCount]) < Mag(b[..bCount]) then -1 else if Mag(a[..aCount]) > Mag(b[..bCount]) then 1 else 0)
  {
    if aCount != bCount {
      if aCount < bCount {
        ValLonger(BASE, a[..aCount], b[..bCount]);
      } else {
        ValLonger(BASE, b[..bCount], a[..aCount]);
      }
      return if aCount < bCount then -1 else 1;
    }
    var i := aCount;
    while i > 0
      invariant 0 <= i <= aCount && a[i..aCount] == b[i..bCount]
    {
      if a[i - 1] != b[i - 1] {
        ghost var s, t := a[..aCount], b[..bCount];
        assert s[i..] == a[i..aCount] && t[i..] == b[i..bCount];
        if a[i - 1] < b[i - 1] {
          ValLess(BASE, s, t, i - 1);
        } else {
          ValLess(BASE, t, s, i - 1);
        }
        return if a[i - 1] < b[i - 1] then -1 else 1;
      }
      i := i - 1;
      assert a[i..aCount] == [a[i]] + a[i + 1..aCount] && b[i..bCount] == [b[i]] + b[i + 1..bCount];
    }
    assert a[..aCount] == a[0..aCount] && b[..bCount] == b[0..bCount];
    c := 0;
  }

  // ---------------------------------------------------------------------------------
  // Addition and subtraction, in place or not.

  /** Digit `k` of `s`, zero past its end. */
  function At(s: seq<nat>, k: nat): nat {
    if k < |s| then s[k] else 0
  }

  /** The first `k` digits, all of them if there are fewer. */
  function First(s: seq<nat>, k: nat): seq<nat> {
    if k <= |s| then s[..k] else s
  }

  lemma FirstStep(b: nat, s: seq<nat>, k: nat)
    ensures Val(b, First(s, k + 1)) == Val(b, First(s, k)) + At(s, k) * Pow(b, k)
  {
    if k < |s| {
      ValSnoc(b, s, k);
    } else {
      assert First(s, k + 1) == First(s, k);
    }
  }

  /** One more digit of a sum. */
  lemma AddStep(s: seq<nat>, t: seq<nat>, r: seq<nat>, k: nat, carry: nat, sum: nat)
    requires |r| == k + 1 && sum == carry + At(s, k) + At(t, k) && r[k] == sum % BASE
    requires Mag(r[..k]) + carry * Pow(BASE, k) == Mag(First(s, k)) + Mag(First(t, k))
    ensures Mag(r) + (sum / BASE) * Pow(BASE, k + 1) == Mag(First(s, k + 1)) + Mag(First(t, k + 1))
  {
    var p := Pow(BASE, k);
    FirstStep(BASE, s, k);
    FirstStep(BASE, t, k);
    ValSnoc(BASE, r, k);
    assert r[..k + 1] == r;
    CarryStep(BASE, sum, p);
    MulDistributes(p, carry, At(s, k) + At(t, k));
    MulDistributes(p, At(s, k), At(t, k));
  }

  /** The sum of two magnitudes; `result` may be the same array as either operand. */
  method Add(a: array<U32>, aCount: nat, b: array<U32>, bCount: nat, result: array<U32>) returns (n: nat)
    requires aCount <= a.Length && bCount <= b.Length && aCount < result.Length && bCount < result.Length
    requires Limbs(a[..aCount]) && Limbs(b[..bCount])
    modifies result
    ensures n <= result.Length && Limbs(result[..n])
    ensures Mag(result[..n]) == old(Mag(a[..aCount])) + old(Mag(b[..bCount]))
    ensures old(Trimmed(a[..aCount]) && Trimmed(b[..bCount])) ==> Trimmed(result[..n])
    ensures n <= if aCount > bCount then aCount + 1 else bCount + 1
  {
    hide Val, Pow;
    ghost var s, t := a[..aCount], b[..bCount];
    var count := if aCount > bCount then aCount else bCount;
    var carry: U64 := 0;
    var index := 0;
    ValZeros(BASE, result[..0]);
    while index < count
      invariant index <= count && carry <= 1
      invariant forall k :: index <= k < aCount ==> a[k] == s[k]
      invariant forall k :: index <= k < bCount ==> b[k] == t[k]
      invariant Limbs(result[..index])
      invariant Mag(result[..index]) + carry * Pow(BASE, index) == Mag(First(s, index)) + Mag(First(t, index))
    {
      var sum: U64 := carry;
      if index < aCount {
        sum := sum + a[index];
      }
      if index < bCount {
        sum := sum + b[index];
      }
      ghost var before := result[..index];
      result[index] := sum % BASE;
      assert result[..index + 1] == before + [sum % BASE];
      AddStep(s, t, result[..index + 1], index, carry, sum);
      carry := sum / BASE;
      index := index + 1;
    }
    assert First(s, index) == s && First(t, index) == t;
    n := index;
    if carry != 0 {
      ghost var before := result[..index];
      result[index] := carry;
      n := index + 1;
      assert result[..n] == before + [carry];
      ValAppend(BASE, before, carry);
    }
    TrimmedSum(s, t, result[..n], count);
  }

  lemma TrimmedSum(s: seq<nat>, t: seq<nat>, r: seq<nat>, count: nat)
    requires Limbs(s) && Limbs(t) && Limbs(r) && Mag(r) == Mag(s) + Mag(t)
    requires count == (if |s| > |t| then |s| else |t|) && (|r| == count || (|r| == count + 1 && r[count] != 0))
    ensures Trimmed(s) && Trimmed(t) ==> Trimmed(r)
  {
    if Trimmed(s) && Trimmed(t) && |r| == count > 0 {
      if |s| == count {
        ValLeading(BASE, s);
      } else {
        ValLeading(BASE, t);
      }
      ValTopDigit(BASE, r);
    }
  }

  /** One more digit of a difference. */
  lemma SubtractStep(s: seq<nat>, t: seq<nat>, r: seq<nat>, k: nat, borrow: int, diff: int)
    requires |r| == k + 1 && diff == At(s, k) - borrow - At(t, k)
    requires r[k] == if diff < 0 then diff + BASE else diff
    requires Mag(r[..k]) + Mag(First(t, k)) == Mag(First(s, k)) + borrow * Pow(BASE, k)
    ensures Mag(r) + Mag(First(t, k + 1)) ==
            Mag(First(s, k + 1)) + (if diff < 0 then 1 else 0) * Pow(BASE, k + 1)
  {
    hide Val;
    var p := Pow(BASE, k);
    FirstStep(BASE, s, k);
    FirstStep(BASE, t, k);
    ValSnoc(BASE, r, k);
    assert r[..k + 1] == r;
    BorrowArithmetic(p, At(s, k), At(t, k), borrow);
    if diff < 0 {
      MulDistributes(p, diff, BASE);
    }
  }

  lemma BorrowArithmetic(p: int, x: int, y: int, borrow: int)
    ensures (x - borrow - y) * p == x * p - borrow * p - y * p
  {
    MulDistributes(p, x - borrow, 0 - y);
    MulDistributes(p, x, 0 - borrow);
  }

  lemma NoBorrow(b: nat, r: nat, x: nat, y: nat, borrow: nat, p: nat)
    requires r < p && y <= x && r + y == x + borrow * p && borrow <= 1
    ensures borrow == 0
  {
  }

  /** The difference of two magnitudes, the first at least the second; `result` may be the
      same array as either operand. */
  method Subtract(a: array<U32>, aCount: nat, b: array<U32>, bCount: nat, result: array<U32>) returns (n: nat)
    requires aCount <= a.Length && bCount <= b.Length && aCount <= result.Length
    requires Limbs(a[..aCount]) && Limbs(b[..bCount]) && Trimmed(b[..bCount])
    requires Mag(a[..aCount]) >= Mag(b[..bCount])
    modifies result
    ensures n <= aCount && Limbs(result[..n]) && Trimmed(result[..n])
    ensures Mag(result[..n]) == old(Mag(a[..aCount])) - old(Mag(b[..bCount]))
  {
    ghost var s, t := a[..aCount], b[..bCount];
    if bCount > aCount {
      ValLonger(BASE, s, t);
    }
    var borrow := 0;
    var index := 0;
    while index < aCount
      invariant index <= aCount && 0 <= borrow <= 1
      invariant forall k :: index <= k < aCount ==> a[k] == s[k]
      invariant forall k :: index <= k < bCount ==> b[k] == t[k]
      invariant Limbs(result[..index])
      invariant Mag(result[..index]) + Mag(First(t, index)) == Mag(First(s, index)) + borrow * Pow(BASE, index)
    {
      var diff := a[index] - borrow - (if index < bCount then b[index] else 0);
      ghost var was := borrow;
      ghost var raw := diff;
      if diff < 0 {
        diff := diff + BASE;
        borrow := 1;
      } else {
        borrow := 0;
      }
      ghost var before := result[..index];
      result[index] := diff;
      assert result[..index + 1] == before + [diff];
      SubtractStep(s, t, result[..index + 1], index, was, raw);
      index := index + 1;
    }
    assert First(s, index) == s && First(t, index) == t;
    ValBound(BASE, result[..index]);
    NoBorrow(BASE, Mag(result[..index]), Mag(s), Mag(t), borrow, Pow(BASE, index));
    n := Trim(result, aCount);
  }

  // ---------------------------------------------------------------------------------
  // Multiplication.

  function Scaled(v: nat, scalar: nat): nat {
    v * scalar
  }

  /** The worth of `c` in place `k`. */
  function Place(c: nat, k: nat): nat {
    c * Pow(BASE, k)
  }

  /** One more digit of `s` times a scalar. */
  lemma ScaleStep(s: seq<nat>, r: seq<nat>, k: nat, scalar: nat, carry: nat, out: nat)
    requires |r| == k + 1 && k < |s| && Accumulated(s[k], scalar, 0, carry, r[k], out)
    ensures Mag(r) + Place(out, k + 1) - Scaled(Mag(s[..k + 1]), scalar) ==
            Mag(r[..k]) + Place(carry, k) - Scaled(Mag(s[..k]), scalar)
  {
    hide Val;
    var product := s[k] * scalar + carry;
    var b := BASE;
    var p := Pow(b, k);
    ValSnoc(b, s, k);
    ValSnoc(b, r, k);
    assert r[..k + 1] == r;
    CarryStep(b, product, p);
    MulDistributes(p, s[k] * scalar, carry);
    MulDistributes(scalar, Val(b, s[..k]), s[k] * p);
    Rearrange(s[k], scalar, p);
  }

  lemma Rearrange(x: int, y: int, z: int)
    ensures (x * y) * z == (x * z) * y
  {
  }

  lemma QuotientBound(x: nat, b: nat, m: nat)
    requires b > 0 && x < b * m
    ensures x / b < m
  {
    if x / b >= m {
      MulMonotone(b, m, x / b);
    }
  }

  lemma AppendCarry(r: seq<nat>, carry: nat)
    ensures Mag(r + [carry]) == Mag(r) + Place(carry, |r|) && Place(0, |r|) == 0
  {
    ValAppend(BASE, r, carry);
  }

  lemma ScaleStart(s: seq<nat>, r: seq<nat>, scalar: nat)
    ensures Mag(r[..0]) + Place(0, 0) == Scaled(Mag(s[..0]), scalar)
  {
  }

  /** A magnitude times one limb. */
  method MultiplyScalar(a: array<U32>, aCount: nat, scalar: U32, result: array<U32>) returns (n: nat)
    requires aCount <= a.Length && aCount < result.Length && a != result
    requires Limbs(a[..aCount]) && scalar < BASE
    modifies result
    ensures n <= aCount + 1 && Limbs(result[..n]) && Trimmed(result[..n])
    ensures Mag(result[..n]) == Scaled(Mag(a[..aCount]), scalar)
  {
    hide Val, Pow, Place, Scaled, Accumulated;
    ghost var s := a[..aCount];
    var carry: U64 := 0;
    var index := 0;
    ScaleStart(s, result[..], scalar);
    assert result[..][..0] == result[..0];
    while index < aCount
      invariant index <= aCount && carry < BASE && Limbs(result[..index])
      invariant Mag(result[..index]) + Place(carry, index) == Scaled(Mag(s[..index]), scalar)
    {
      var digit, out := MultiplyAccumulate(a[index], scalar, 0, carry);
      ghost var before := result[..index];
      result[index] := digit;
      assert result[..index + 1] == before + [digit];
      ScaleStep(s, result[..index + 1], index, scalar, carry, out);
      carry := out;
      index := index + 1;
    }
    assert s[..index] == s;
    AppendCarry(result[..index], carry);
    if carry != 0 {
      ghost var before := result[..index];
      result[index] := carry;
      assert result[..index + 1] == before + [carry];
      index := index + 1;
    }
    n := Trim(result, index);
  }

  /** One more digit of `b` times `x`, added from place `i` on: `r` before, `r'` after. */
  lemma AccumulateStep(t: seq<nat>, r: seq<nat>, r': seq<nat>, i: nat, j: nat, x: nat, carry: nat, product: nat)
    requires j < |t| && i + j < |r| == |r'| && product == x * t[j] + r[i + j] + carry
    requires r' == r[i + j := product % BASE]
    ensures Mag(r') + (product / BASE) * Pow(BASE, i + j + 1) ==
            Mag(r) + carry * Pow(BASE, i + j) + x * t[j] * Pow(BASE, i + j)
  {
    var k := i + j;
    var p := Pow(BASE, k);
    ValUpdate(BASE, r, k, product % BASE);
    CarryStep(BASE, product, p);
    MulDistributes(p, x * t[j], r[k] + carry);
    MulDistributes(p, r[k], carry);
  }

  lemma ValUpdate(b: nat, r: seq<nat>, k: nat, d: nat)
    requires k < |r|
    ensures Val(b, r[k := d]) + r[k] * Pow(b, k) == Val(b, r) + d * Pow(b, k)
  {
    var u := r[k := d];
    ValSplit(b, r, k + 1);
    ValSplit(b, u, k + 1);
    ValSnoc(b, r, k);
    ValSnoc(b, u, k);
    assert u[..k] == r[..k] && u[k + 1..] == r[k + 1..];
  }

  /** `x` times `v`, shifted by `i` places. */
  function Row(x: nat, v: nat, i: nat): nat {
    x * v * Pow(BASE, i)
  }

  ghost predicate Accumulated(x: nat, y: nat, rest: nat, carry: nat, digit: nat, out: nat) {
    digit == (Product(x, y) + rest + carry) % BASE && out == (Product(x, y) + rest + carry) / BASE
  }

  function Product(x: nat, y: nat): nat {
    x * y
  }

  /** A product of two limbs plus a limb plus a carry, as a limb and a carry. */
  method MultiplyAccumulate(x: U32, y: U32, rest: U32, carry: U64) returns (digit: U32, out: U64)
    requires x < BASE && y < BASE && rest < BASE && carry < BASE
    ensures digit < BASE && out < BASE && Accumulated(x, y, rest, carry, digit, out)
  {
    hide Product;
    var product := MultiplyLimbs(x, y);
    digit, out := SplitLimb(product + rest + carry);
  }

  /** The product of two limbs. */
  method MultiplyLimbs(x: U32, y: U32) returns (product: U64)
    requires x < BASE && y < BASE
    ensures product == Product(x, y) <= 999_999_998_000_000_001
  {
    ProductRange(x, y);
    product := x * y;
  }

  lemma ProductRange(x: nat, y: nat)
    requires x <= 999_999_999 && y <= 999_999_999
    ensures 0 <= x * y <= 999_999_998_000_000_001
  {
    MulMonotone(x, y, 999_999_999);
    MulMonotone(999_999_999, x, 999_999_999);
  }

  /** The low limb of a 64-bit number and what is carried. */
  method SplitLimb(sum: U64) returns (digit: U32, out: U64)
    ensures digit == sum % BASE < BASE && out == sum / BASE
    ensures sum < 1_000_000_000_000_000_000 ==> out < BASE
  {
    digit, out := sum % BASE, sum / BASE;
  }

  /** The whole row `x * b`, shifted by `i` places, added to `result`. */
  method AddRow(x: U32, b: array<U32>, bCount: nat, result: array<U32>, i: nat)
    requires bCount <= b.Length && i + bCount < result.Length && b != result
    requires x < BASE && Limbs(b[..bCount]) && Limbs(result[..])
    requires forall k :: i + bCount <= k < result.Length ==> result[k] == 0
    modifies result
    ensures Limbs(result[..])
    ensures forall k :: i + bCount < k < result.Length ==> result[k] == 0
    ensures Mag(result[..]) == old(Mag(result[..])) + Row(x, Mag(b[..bCount]), i)
  {
    hide Val, Pow, Place, Row, Accumulated;
    ghost var t, r0 := b[..bCount], result[..];
    RowStart(t, i, x);
    var carry: U64 := 0;
    var j := 0;
    while j < bCount
      invariant j <= bCount && carry < BASE && Limbs(result[..])
      invariant forall k :: i + bCount <= k < result.Length ==> result[k] == 0
      invariant Mag(result[..]) + Place(carry, i + j) == Mag(r0) + Row(x, Mag(t[..j]), i)
    {
      ghost var was := carry;
      ghost var r: seq<nat> := result[..];
      var digit;
      digit, carry := MultiplyAccumulate(x, b[j], result[i + j], carry);
      result[i + j] := digit;
      RowStep(t, r, result[..], i, j, x, was, digit, carry);
      j := j + 1;
    }
    assert t[..j] == t;
    PropagateCarry(result, i + j, carry);
  }

  /** Adds a carry to an array that is zero from place `start` on. */
  method PropagateCarry(result: array<U32>, start: nat, carryIn: U64)
    requires start < result.Length && carryIn < BASE && Limbs(result[..]) && result[start] == 0
    modifies result
    ensures Limbs(result[..]) && forall k :: 0 <= k < result.Length && k != start ==> result[k] == old(result[k])
    ensures Mag(result[..]) == old(Mag(result[..])) + Place(carryIn, start)
  {
    hide Val;
    ghost var r: seq<nat> := result[..];
    var carry, k := carryIn, start;
    while carry != 0
      invariant carry == 0 || (carry == carryIn && k == start && result[..] == r)
      invariant Limbs(result[..]) && forall m :: 0 <= m < result.Length && m != start ==> result[m] == r[m]
      invariant carry == 0 ==> Mag(result[..]) == Mag(r) + carryIn * Pow(BASE, start)
      decreases carry
    {
      var sum: U64 := result[k] + carry;
      result[k] := sum % BASE;
      ValUpdate(BASE, r, k, sum % BASE);
      assert result[..] == r[k := sum % BASE];
      carry := sum / BASE;
      k := k + 1;
    }
  }

  lemma RowStart(t: seq<nat>, i: nat, x: nat)
    ensures Row(x, Mag(t[..0]), i) == 0 && Place(0, i) == 0
  {
  }

  lemma RowStep(t: seq<nat>, r: seq<nat>, r': seq<nat>, i: nat, j: nat, x: nat, carry: nat, digit: nat, out: nat)
    requires j < |t| && i + j < |r| == |r'| && r' == r[i + j := digit]
    requires Accumulated(x, t[j], r[i + j], carry, digit, out)
    ensures Mag(r') + Place(out, i + j + 1) + Row(x, Mag(t[..j]), i) ==
            Mag(r) + Place(carry, i + j) + Row(x, Mag(t[..j + 1]), i)
  {
    hide Val;
    var product := x * t[j] + r[i + j] + carry;
    AccumulateStep(t, r, r', i, j, x, carry, product);
    ValSnoc(BASE, t, j);
    PowAdd(BASE, j, i);
    var p := Pow(BASE, i);
    MulDistributes(x, Mag(t[..j]), t[j] * Pow(BASE, j));
    MulDistributes(p, x * Mag(t[..j]), x * (t[j] * Pow(BASE, j)));
    MulAssociative(x, t[j], Pow(BASE, j));
    MulAssociative(x * t[j], Pow(BASE, j), p);
  }

  /** The product of two magnitudes. */
  method Multiply(a: array<U32>, aCount: nat, b: array<U32>, bCount: nat, result: array<U32>) returns (n: nat)
    requires aCount <= a.Length && bCount <= b.Length && aCount + bCount == result.Length
    requires a != result && b != result && Limbs(a[..aCount]) && Limbs(b[..bCount])
    modifies result
    ensures n <= aCount + bCount && Limbs(result[..n]) && Trimmed(result[..n])
    ensures Mag(result[..n]) == Mag(a[..aCount]) * Mag(b[..bCount])
  {
    ghost var s, t := a[..aCount], b[..bCount];
    var index := 0;
    while index < aCount + bCount
      invariant index <= aCount + bCount && forall k :: 0 <= k < index ==> result[k] == 0
    {
      result[index] := 0;
      index := index + 1;
    }
    ValZeros(BASE, result[..]);
    var i := 0;
    while i < aCount
      invariant i <= aCount && Limbs(result[..])
      invariant forall k :: i + bCount <= k < result.Length ==> result[k] == 0
      invariant Mag(result[..]) == Mag(s[..i]) * Mag(t)
    {
      ghost var m := Mag(result[..]);
      AddRow(a[i], b, bCount, result, i);
      MultiplyStep(s, t, i);
      i := i + 1;
    }
    assert s[..i] == s && result[..] == result[..aCount + bCount];
    n := Trim(result, aCount + bCount);
  }

  lemma MultiplyStep(s: seq<nat>, t: seq<nat>, i: nat)
    requires i < |s|
    ensures Mag(s[..i + 1]) * Mag(t) == Mag(s[..i]) * Mag(t) + Row(s[i], Mag(t), i)
  {
    ValSnoc(BASE, s, i);
    MulDistributes(Mag(t), Mag(s[..i]), s[i] * Pow(BASE, i));
    assert (s[i] * Pow(BASE, i)) * Mag(t) == s[i] * Mag(t) * Pow(BASE, i);
  }

  // ---------------------------------------------------------------------------------
  // Long division.

  /** The largest digit whose multiple of `b` does not exceed the remainder, by binary search. */
  method QuotientDigit(b: array<U32>, bCount: nat, remainder: array<U32>, remCount: nat, scratch: array<U32>)
    returns (digit: U32)
    requires bCount <= b.Length && remCount <= remainder.Length && bCount + 1 == scratch.Length
    requires scratch != b && scratch != remainder
    requires Limbs(b[..bCount]) && Limbs(remainder[..remCount]) && Trimmed(remainder[..remCount])
    requires Mag(remainder[..remCount]) < Mag(b[..bCount]) * BASE
    modifies scratch
    ensures digit < BASE
    ensures Mag(b[..bCount]) * digit <= Mag(remainder[..remCount]) < Mag(b[..bCount]) * (digit + 1)
  {
    hide Val;
    ghost var divisor, rest := Mag(b[..bCount]), Mag(remainder[..remCount]);
    var low: U32, high: U32 := 0, BASE - 1;
    digit := 0;
    while low <= high
      invariant digit <= low <= high + 1 <= BASE && digit <= high
      invariant low == 0 ==> digit == 0
      invariant low > 0 ==> digit + 1 == low
      invariant divisor * digit <= rest < divisor * (high + 1)
      decreases high + 1 - low
    {
      var mid := low + (high - low) / 2;
      var scratchCount := MultiplyScalar(b, bCount, mid, scratch);
      var comparison := Compare(scratch, scratchCount, remainder, remCount);
      if comparison <= 0 {
        digit := mid;
        if mid == BASE - 1 {
          break;
        }
        low := mid + 1;
      } else {
        if mid == 0 {
          break;
        }
        high := mid - 1;
      }
    }
  }

  lemma ValCons(d: nat, s: seq<nat>)
    ensures Mag([d] + s) == d + BASE * Mag(s)
  {
    assert ([d] + s)[1..] == s;
  }

  /** Shifts one limb into the bottom of the remainder. */
  method ShiftIn(remainder: array<U32>, remCount: nat, limb: U32) returns (n: nat)
    requires remCount < remainder.Length && Limbs(remainder[..remCount]) && limb < BASE
    modifies remainder
    ensures n <= remCount + 1 && Limbs(remainder[..n]) && Trimmed(remainder[..n])
    ensures Mag(remainder[..n]) == old(Mag(remainder[..remCount])) * BASE + limb
  {
    hide Val;
    ghost var r := remainder[..remCount];
    var k := remCount;
    while k > 0
      invariant 0 <= k <= remCount
      invariant forall m :: k < m <= remCount ==> remainder[m] == r[m - 1]
      invariant forall m :: 0 <= m < k ==> remainder[m] == r[m]
    {
      remainder[k] := remainder[k - 1];
      k := k - 1;
    }
    remainder[0] := limb;
    assert remainder[..remCount + 1] == [limb] + r;
    ValCons(limb, r);
    n := Trim(remainder, remCount + 1);
  }

  /** Quotient and remainder of the limbs from place `i` on. */
  ghost predicate Divided(a: seq<nat>, q: seq<nat>, i: nat, divisor: nat, rest: nat) {
    i <= |a| == |q| && Mag(a[i..]) == Mag(q[i..]) * divisor + rest && rest < divisor
  }

  lemma DivideStep(a: seq<nat>, q: seq<nat>, i: nat, divisor: nat, rest: nat, digit: nat, q': seq<nat>)
    requires Divided(a, q, i + 1, divisor, rest) && i < |a| && q' == q[i := digit]
    requires divisor * digit <= rest * BASE + a[i] < divisor * (digit + 1)
    ensures Divided(a, q', i, divisor, rest * BASE + a[i] - divisor * digit)
  {
    assert a[i..] == [a[i]] + a[i + 1..] && q'[i..] == [digit] + q[i + 1..];
    assert ([a[i]] + a[i + 1..])[1..] == a[i + 1..] && ([digit] + q[i + 1..])[1..] == q[i + 1..];
    MulDistributes(divisor, digit, BASE * Mag(q[i + 1..]));
    MulDistributes(BASE, Mag(q[i + 1..]) * divisor, rest);
    MulAssociative(BASE, Mag(q[i + 1..]), divisor);
    MulDistributes(divisor, digit, 1);
  }

  /** Long division. The remainder never needs more than one limb beyond the divisor's. */
  method Divide(a: array<U32>, aCount: nat, b: array<U32>, bCount: nat, quotient: array<U32>,
                remainder: array<U32>) returns (qCount: nat, rCount: nat)
    requires aCount <= a.Length && bCount <= b.Length && aCount <= quotient.Length
    requires bCount + 1 == remainder.Length
    requires quotient != a && quotient != b && remainder != a && remainder != b && quotient != remainder
    requires Limbs(a[..aCount]) && Limbs(b[..bCount]) && Mag(b[..bCount]) > 0
    modifies quotient, remainder
    ensures qCount <= aCount && rCount <= bCount
    ensures Limbs(quotient[..qCount]) && Trimmed(quotient[..qCount])
    ensures Limbs(remainder[..rCount]) && Trimmed(remainder[..rCount])
    ensures Mag(a[..aCount]) == Mag(quotient[..qCount]) * Mag(b[..bCount]) + Mag(remainder[..rCount])
    ensures Mag(remainder[..rCount]) < Mag(b[..bCount])
  {
    hide Val;
    ghost var s, divisor := a[..aCount], Mag(b[..bCount]);
    var scratch := new U32[bCount + 1];
    rCount := 0;
    var i := aCount;
    StartDividing(s, quotient[..aCount], divisor, remainder[..0]);
    while i > 0
      invariant 0 <= i <= aCount && rCount <= bCount
      invariant Limbs(remainder[..rCount]) && Trimmed(remainder[..rCount])
      invariant Digits(BASE, quotient[i..aCount])
      invariant Divided(s, quotient[..aCount], i, divisor, Mag(remainder[..rCount]))
    {
      ghost var rest := Mag(remainder[..rCount]);
      ghost var q: seq<nat> := quotient[..aCount];
      rCount := ShiftIn(remainder, rCount, a[i - 1]);
      var digit := QuotientDigit(b, bCount, remainder, rCount, scratch);
      quotient[i - 1] := digit;
      assert quotient[..aCount] == q[i - 1 := digit];
      DivideStep(s, q, i - 1, divisor, rest, digit, quotient[..aCount]);
      var productCount := MultiplyScalar(b, bCount, digit, scratch);
      rCount := Subtract(remainder, rCount, scratch, productCount, remainder);
      RemainderCount(remainder[..rCount], b[..bCount]);
      i := i - 1;
    }
    assert s[0..] == s && quotient[..aCount][0..] == quotient[..aCount];
    qCount := Trim(quotient, aCount);
  }

  lemma StartDividing(s: seq<nat>, q: seq<nat>, divisor: nat, r: seq<nat>)
    requires |s| == |q| && divisor > 0 && |r| == 0
    ensures Divided(s, q, |s|, divisor, Mag(r))
  {
  }

  lemma RemainderCount(r: seq<nat>, b: seq<nat>)
    requires Limbs(b) && Trimmed(r) && Mag(r) < Mag(b)
    ensures |r| <= |b|
  {
    if |r| > |b| {
      ValLonger(BASE, b, r);
    }
  }
}
