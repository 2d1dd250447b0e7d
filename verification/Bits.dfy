/** Bits of integers in infinite two's complement, and of words. */
module Bits {
  import opened Positional
  import opened Magnitude
  import opened Words

  /** Bit `k` of `x`: negative numbers have infinitely many leading ones. */
  predicate Bit(x: int, k: nat) {
    PowPositive(2, k);
    (x / Pow(2, k)) % 2 == 1
  }

  lemma DivUnique(x: int, d: nat, q: int, r: nat)
    requires r < d && x == q * d + r
    ensures x / d == q && x % d == r
  {
    var p := x / d;
    MulDistributes(d, q, -p);
    assert (q - p) * d == x % d - r;
    if q - p >= 1 {
      MulMonotone(d, 1, q - p);
    } else if q - p <= -1 {
      MulMonotone(d, q - p, -1);
    }
  }

  /** Dividing twice is dividing by the product. */
  lemma DivDiv(x: int, a: nat, b: nat)
    requires a > 0 && b > 0
    ensures a * b > 0 && (x / a) / b == x / (a * b)
  {
    var q, r := x / a, x % a;
    var p, s := q / b, q % b;
    assert x == a * q + r && q == b * p + s;
    MulDistributes(a, b * p, s);
    MulAssociative(a, b, p);
    MulMonotone(a, s + 1, b);
    MulDistributes(a, s, 1);
    MulMonotone(a, 0, s);
    MulMonotone(a, 1, b);
    assert x == p * (a * b) + (a * s + r);
    DivUnique(x, a * b, p, a * s + r);
  }

  lemma BitShift(x: int, j: nat, k: nat)
    ensures Pow(2, j) > 0 && Bit(x, j + k) == Bit(x / Pow(2, j), k)
  {
    PowPositive(2, j);
    PowPositive(2, k);
    PowAdd(2, j, k);
    DivDiv(x, Pow(2, j), Pow(2, k));
  }

  lemma BitZero(x: int)
    ensures Bit(x, 0) <==> x % 2 == 1
  {
  }

  /** Bits below place `n` do not notice multiples of 2^n. */
  lemma BitAddHigh(x: int, m: int, n: nat, k: nat)
    requires k < n
    ensures Bit(x + m * Pow(2, n), k) == Bit(x, k)
  {
    var p, h := Pow(2, k), Pow(2, n - k - 1);
    PowPositive(2, k);
    PowAdd(2, k, n - k);
    assert Pow(2, n) == p * (2 * h);
    Regroup(m, p, h);
    AddEvenMultiple(x, p, m * h);
  }

  lemma Regroup(m: int, p: int, h: int)
    ensures m * (p * (2 * h)) == 2 * (m * h) * p
  {
    MulAssociative(m, p, 2 * h);
    Rearrange(m, p, 2 * h);
    assert m * (2 * h) == 2 * (m * h);
  }

  lemma AddEvenMultiple(x: int, p: nat, e: int)
    requires p > 0
    ensures ((x + 2 * e * p) / p) % 2 == (x / p) % 2
  {
    var q, r := x / p, x % p;
    MulDistributes(p, q, 2 * e);
    DivUnique(x + 2 * e * p, p, q + 2 * e, r);
    EvenShift(q, e);
  }

  lemma EvenShift(q: int, e: int)
    ensures (q + 2 * e) % 2 == q % 2
  {
  }

  /** From its width on, a number shows only its sign. */
  lemma BitHigh(x: int, n: nat, k: nat)
    requires 0 - Pow(2, n) <= x < Pow(2, n) && n <= k
    ensures Bit(x, k) <==> x < 0
  {
    PowMonotone(2, n, k);
    var p := Pow(2, k);
    PowPositive(2, k);
    if x < 0 {
      DivUnique(x, p, -1, x + p);
    } else {
      DivUnique(x, p, 0, x);
    }
  }

  // ---------------------------------------------------------------------------------
  // Operations on words, bit by bit.

  datatype Operation = And | Or | Xor

  predicate Combine(op: Operation, p: bool, q: bool) {
    match op
    case And => p && q
    case Or => p || q
    case Xor => p != q
  }

  /** The machine's `&`, `|` or `^` on numbers of `n` bits. */
  function WordOp(op: Operation, x: nat, y: nat, n: nat): nat {
    if n == 0 then 0
    else (if Combine(op, x % 2 == 1, y % 2 == 1) then 1 else 0) + 2 * WordOp(op, x / 2, y / 2, n - 1)
  }

  lemma {:induction false} WordOpBound(op: Operation, x: nat, y: nat, n: nat)
    ensures WordOp(op, x, y, n) < Pow(2, n)
  {
    if n > 0 {
      WordOpBound(op, x / 2, y / 2, n - 1);
    }
  }

  lemma BitHalf(x: int, k: nat)
    requires k > 0
    ensures Bit(x, k) == Bit(x / 2, k - 1)
  {
    assert Pow(2, 1) == 2 * Pow(2, 0);
    BitShift(x, 1, k - 1);
  }

  lemma {:induction false} WordOpBits(op: Operation, x: nat, y: nat, n: nat, k: nat)
    requires k < n
    ensures Bit(WordOp(op, x, y, n), k) == Combine(op, Bit(x, k), Bit(y, k))
    decreases n
  {
    if k == 0 {
      BitZero(x);
      BitZero(y);
      BitZero(WordOp(op, x, y, n));
    } else {
      BitHalf(x, k);
      BitHalf(y, k);
      BitHalf(WordOp(op, x, y, n), k);
      WordOpBits(op, x / 2, y / 2, n - 1, k - 1);
    }
  }

  /** Or-ing disjoint bits adds. */
  lemma {:induction false} OrDisjoint(x: nat, y: nat, p: nat, n: nat)
    requires p <= n && x < Pow(2, p) && y * Pow(2, p) < Pow(2, n)
    ensures WordOp(Or, x, y * Pow(2, p), n) == x + y * Pow(2, p)
    decreases n
  {
    if n == 0 {
      assert Pow(2, 0) == 1;
    } else if p > 0 {
      var z := y * Pow(2, p);
      var half := y * Pow(2, p - 1);
      assert z == 2 * half;
      assert z % 2 == 0 && z / 2 == half;
      OrDisjoint(x / 2, y, p - 1, n - 1);
    } else {
      assert x == 0 && y * Pow(2, p) == y;
      OrDisjoint(0, y / 2, 0, n - 1);
    }
  }

  // ---------------------------------------------------------------------------------
  // The bits of a number are those of its words.

  lemma {:induction false} BinBit(s: seq<nat>, i: nat, j: nat)
    requires Digits(WORD, s) && i < |s| && j < 32
    ensures Bit(Bin(s), 32 * i + j) == Bit(s[i], j)
    decreases i
  {
    PowTwo();
    if i == 0 {
      BitAddHigh(s[0], Bin(s[1..]), 32, j);
    } else {
      DivUnique(Bin(s), WORD, Bin(s[1..]), s[0]);
      BitShift(Bin(s), 32, 32 * (i - 1) + j);
      BinBit(s[1..], i - 1, j);
    }
  }

  /** Words combined one by one combine the bits of the numbers. */
  lemma BinOp(op: Operation, a: seq<nat>, b: seq<nat>, r: seq<nat>, k: nat)
    requires |a| == |b| == |r| && Digits(WORD, a) && Digits(WORD, b) && k < 32 * |r|
    requires forall i :: 0 <= i < |r| ==> r[i] == WordOp(op, a[i], b[i], 32)
    ensures Digits(WORD, r) && Bit(Bin(r), k) == Combine(op, Bit(Bin(a), k), Bit(Bin(b), k))
  {
    PowTwo();
    forall i | 0 <= i < |r|
      ensures r[i] < WORD
    {
      WordOpBound(op, a[i], b[i], 32);
    }
    var i, j := k / 32, k % 32;
    BinBit(a, i, j);
    BinBit(b, i, j);
    BinBit(r, i, j);
    WordOpBits(op, a[i], b[i], 32, j);
  }
}
