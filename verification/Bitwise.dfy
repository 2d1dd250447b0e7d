/** Bitwise operations on integers of any size. */
module Bitwise {
  import opened Positional
  import opened Magnitude
  import opened Bignum
  import opened Words
  import opened Bits

  // ---------------------------------------------------------------------------------
  // Two's complement.

  lemma ComplementStep(w: seq<nat>, out: seq<nat>, i: nat, carry: nat, sum: nat)
    requires i < |w| && |out| == i + 1 && w[i] < WORD && sum == WORD - 1 - w[i] + carry && out[i] == sum % WORD
    requires Bin(out[..i]) + carry * Pow(WORD, i) == Pow(WORD, i) - Bin(w[..i])
    ensures Bin(out) + (sum / WORD) * Pow(WORD, i + 1) == Pow(WORD, i + 1) - Bin(w[..i + 1])
  {
    hide Val;
    var p := Pow(WORD, i);
    ValSnoc(WORD, w, i);
    ValSnoc(WORD, out, i);
    assert out[..i + 1] == out;
    CarryStep(WORD, sum, p);
    MulDistributes(p, WORD - 1 - w[i], carry);
    var digit: int := w[i];
    MulDistributes(p, WORD - 1, -digit);
    MulDistributes(p, WORD, -1);
  }

  /** Replaces the words by their two's complement in that many words. */
  method Complement(words: array<U32>)
    modifies words
    ensures Bin(words[..]) ==
            if old(Bin(words[..])) == 0 then 0 else Pow(WORD, words.Length) - old(Bin(words[..]))
  {
    hide Val, Pow;
    ghost var w := words[..];
    var carry: U64 := 1;
    var i := 0;
    ValZeros(WORD, w[..0]);
    ValZeros(WORD, words[..0]);
    PowZero(WORD);
    while i < words.Length
      invariant i <= words.Length && carry <= 1
      invariant forall k :: i <= k < words.Length ==> words[k] == w[k]
      invariant Bin(words[..i]) + carry * Pow(WORD, i) == Pow(WORD, i) - Bin(w[..i])
    {
      var sum: U64 := 0xFFFF_FFFF - words[i] + carry;
      ghost var before := words[..i];
      words[i] := sum % WORD;
      assert words[..i + 1] == before + [sum % WORD];
      ComplementStep(w, words[..i + 1], i, carry, sum);
      carry := sum / WORD;
      i := i + 1;
    }
    assert w[..i] == w && words[..i] == words[..];
    ValBound(WORD, words[..]);
    ValBound(WORD, w);
  }

  /** Enough words for the magnitude, and one for the sign. */
  function WordCount(count: nat): nat {
    (count * 30 + 31) / 32 + 2
  }

  /** A signed number in `n` bits. */
  function Residue(x: int, n: nat): int {
    if x < 0 then x + Pow(2, n) else x
  }

  /** The two's complement form of a value in exactly `width` words. */
  method ToTwosComplement(view: View, width: nat) returns (out: array<U32>)
    requires ValidView(view) && width >= WordCount(view.count)
    ensures fresh(out) && out.Length == width && Bin(out[..]) == Residue(Viewed(view), 32 * width)
  {
    hide Val, Pow;
    var words, used := ToWords(view.limbs, view.count);
    out := new U32[width](i requires 0 <= i < width reads words =>
      if i < used then words[i] else 0);
    ValTrim(WORD, out[..], used);
    assert out[..][..used] == words[..used];
    if view.negative {
      Complement(out);
    }
    PowWord(width);
  }

  /** Every magnitude leaves room for the sign. */
  lemma ViewBits(s: seq<nat>, width: nat)
    requires Limbs(s) && width >= WordCount(|s|)
    ensures Mag(s) < Pow(2, 32 * width - 1)
  {
    MagBits(s);
    PowMonotone(2, 30 * |s|, 32 * width - 1);
  }

  lemma ResidueBit(x: int, n: nat, k: nat)
    requires k < n
    ensures Bit(Residue(x, n), k) == Bit(x, k)
  {
    if x < 0 {
      BitAddHigh(x, 1, n, k);
    }
  }

  /** A number of `n` bits read as a signed one. */
  function Restored(r: nat, n: nat): int
    requires n > 0
  {
    if Bit(r, n - 1) then r - Pow(2, n) else r
  }

  lemma RestoredRange(r: nat, n: nat)
    requires n > 0 && r < Pow(2, n)
    ensures 0 - Pow(2, n - 1) <= Restored(r, n) < Pow(2, n - 1)
    ensures Restored(r, n) < 0 <==> Bit(r, n - 1)
  {
    var h := Pow(2, n - 1);
    assert Pow(2, n) == 2 * h;
    PowPositive(2, n - 1);
    if r < h {
      DivUnique(r, h, 0, r);
    } else {
      DivUnique(r, h, 1, r - h);
    }
  }

  /** Combining the residues of two numbers of fewer than `n` bits combines all their bits. */
  lemma CombineResidues(op: Operation, x: int, y: int, r: nat, n: nat, k: nat)
    requires n > 0 && 0 - Pow(2, n - 1) <= x < Pow(2, n - 1) && 0 - Pow(2, n - 1) <= y < Pow(2, n - 1)
    requires r < Pow(2, n)
    requires forall i: nat :: i < n ==> Bit(r, i) == Combine(op, Bit(Residue(x, n), i), Bit(Residue(y, n), i))
    ensures Bit(Restored(r, n), k) == Combine(op, Bit(x, k), Bit(y, k))
  {
    hide Bit;
    RestoredRange(r, n);
    if k < n {
      ResidueBit(x, n, k);
      ResidueBit(y, n, k);
      BitAddHigh(r, -1, n, k);
    } else {
      BitHigh(x, n - 1, k);
      BitHigh(y, n - 1, k);
      BitHigh(Restored(r, n), n - 1, k);
      BitHigh(x, n - 1, n - 1);
      BitHigh(y, n - 1, n - 1);
      ResidueBit(x, n, n - 1);
      ResidueBit(y, n, n - 1);
    }
  }

  /** `&`, `|` or `^` with infinite two's complement: every bit of the result, at every
      position, is the combination of the operands' bits there. */
  method BitwiseViews(op: Operation, left: View, right: View) returns (v: Integer)
    requires ValidView(left) && ValidView(right)
    ensures Canonical(v)
    ensures forall k: nat :: Bit(Meaning(v), k) == Combine(op, Bit(Viewed(left), k), Bit(Viewed(right), k))
  {
    hide Val, Pow, Bit;
    var aWidth, bWidth := WordCount(left.count), WordCount(right.count);
    var width := if aWidth > bWidth then aWidth else bWidth;
    ViewBits(left.limbs[..left.count], width);
    ViewBits(right.limbs[..right.count], width);
    var a := ToTwosComplement(left, width);
    var b := ToTwosComplement(right, width);
    ghost var r := CombineWords(op, a, b, Viewed(left), Viewed(right));
    var negative := a[width - 1] / 0x8000_0000 == 1;
    SignBit(a[..], negative);
    if negative {
      Complement(a);
    }
    v := WordsToValue(negative, a, width);
    assert a[..width] == a[..];
    assert Meaning(v) == Restored(r, 32 * width) by {
      RestoredValue(r, width, negative, Bin(a[..]));
    }
    forall k: nat
      ensures Bit(Meaning(v), k) == Combine(op, Bit(Viewed(left), k), Bit(Viewed(right), k))
    {
      CombineResidues(op, Viewed(left), Viewed(right), r, 32 * width, k);
    }
  }

  /** Combines the words of `b` into `a`; the result as a number is returned as well. */
  method CombineWords(op: Operation, a: array<U32>, b: array<U32>, ghost x: int, ghost y: int)
    returns (ghost r: nat)
    requires a.Length == b.Length && a != b
    requires Bin(a[..]) == Residue(x, 32 * a.Length) && Bin(b[..]) == Residue(y, 32 * a.Length)
    modifies a
    ensures r == Bin(a[..]) < Pow(2, 32 * a.Length)
    ensures forall i: nat :: i < 32 * a.Length ==>
      Bit(r, i) == Combine(op, Bit(Residue(x, 32 * a.Length), i), Bit(Residue(y, 32 * a.Length), i))
  {
    hide Val, Pow, Bit, WordOp;
    ghost var s, t := a[..], b[..];
    var i := 0;
    while i < a.Length
      invariant i <= a.Length
      invariant forall k :: i <= k < a.Length ==> a[k] == s[k]
      invariant forall k :: 0 <= k < i ==> a[k] == WordOp(op, s[k], t[k], 32)
    {
      PowTwo();
      WordOpBound(op, a[i], b[i], 32);
      a[i] := WordOp(op, a[i], b[i], 32);
      i := i + 1;
    }
    r := Bin(a[..]);
    forall k: nat | k < 32 * a.Length
      ensures Bit(r, k) == Combine(op, Bit(Bin(s), k), Bit(Bin(t), k))
    {
      BinOp(op, s, t, a[..], k);
    }
    ValBound(WORD, a[..]);
    PowWord(a.Length);
  }

  /** The top bit of the top word is the top bit of the number. */
  lemma SignBit(a: seq<nat>, negative: bool)
    requires |a| > 0 && Digits(WORD, a) && negative == (a[|a| - 1] / 0x8000_0000 == 1)
    ensures negative == Bit(Bin(a), 32 * |a| - 1)
  {
    BinBit(a, |a| - 1, 31);
    PowTwo();
    PowAdd(2, 30, 1);
    var top := a[|a| - 1];
    assert Pow(2, 31) == 0x8000_0000;
  }

  lemma RestoredValue(r: nat, width: nat, negative: bool, now: nat)
    requires width > 0 && r < Pow(2, 32 * width) && negative == Bit(r, 32 * width - 1)
    requires now == if negative && r != 0 then Pow(WORD, width) - r else r
    ensures Signed(negative, now) == Restored(r, 32 * width)
  {
    PowWord(width);
    if r == 0 {
      PowPositive(2, 32 * width - 1);
      BitHigh(0, 32 * width - 1, 32 * width - 1);
    }
  }
}
