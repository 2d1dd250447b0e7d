/** Between base 10^9 limbs and base 2^32 words. */
module Words {
  import opened Positional
  import opened Magnitude
  import opened Bignum

  const WORD: nat := 0x1_0000_0000

  function Bin(s: seq<nat>): nat {
    Val(WORD, s)
  }

  // ---------------------------------------------------------------------------------
  // Dividing in place by a small number.

  /** One limb and the remainder before it, divided. */
  ghost predicate ShortDivided(rest: nat, limb: nat, divisor: nat, q: nat, r: nat) {
    rest * BASE + limb == q * divisor + r
  }

  method DivideLimb(rest: U64, limb: U32, divisor: nat) returns (q: U32, r: U64)
    requires rest < divisor && 2 <= divisor <= 0x1_0000_0000 && limb < BASE
    ensures q < BASE && r < divisor && ShortDivided(rest, limb, divisor, q, r)
  {
    var current: U64 := rest * 1_000_000_000 + limb;
    q, r := ShortQuotient(current, rest, divisor);
  }

  method ShortQuotient(current: U64, ghost rest: nat, divisor: nat) returns (q: U32, r: U64)
    requires divisor >= 2 && rest < divisor && current < 1_000_000_000 * (rest + 1)
    ensures q < BASE && r < divisor && current == q * divisor + r
  {
    MulMonotone(1_000_000_000, rest + 1, divisor);
    QuotientBound(current, divisor, 1_000_000_000);
    Quotient(current, divisor);
    q, r := current / divisor, current % divisor;
  }

  lemma Quotient(x: nat, d: nat)
    requires d > 0
    ensures x == (x / d) * d + x % d && x % d < d
  {
  }

  /** One more limb divided, from the most significant one down. */
  lemma ShortStep(a: seq<nat>, q: seq<nat>, i: nat, divisor: nat, rest: nat, digit: nat, rest': nat, q': seq<nat>)
    requires i < |a| == |q| && q' == q[i := digit] && ShortDivided(rest, a[i], divisor, digit, rest')
    requires Mag(a[i + 1..]) == Scaled(Mag(q[i + 1..]), divisor) + rest
    ensures Mag(a[i..]) == Scaled(Mag(q'[i..]), divisor) + rest'
  {
    hide Val;
    assert a[i..] == [a[i]] + a[i + 1..] && q'[i..] == [digit] + q[i + 1..];
    ValCons(a[i], a[i + 1..]);
    ValCons(digit, q[i + 1..]);
    MulDistributes(divisor, digit, BASE * Mag(q[i + 1..]));
    MulAssociative(BASE, Mag(q[i + 1..]), divisor);
  }

  /** Divides a magnitude in place and returns the remainder. */
  method DivideShort(limbs: array<U32>, count: nat, divisor: nat) returns (n: nat, rest: U64)
    requires count <= limbs.Length && Limbs(limbs[..count]) && 2 <= divisor <= 0x1_0000_0000
    modifies limbs
    ensures n <= count && Limbs(limbs[..n]) && Trimmed(limbs[..n]) && rest < divisor
    ensures old(Mag(limbs[..count])) == Scaled(Mag(limbs[..n]), divisor) + rest
  {
    hide Val, Scaled, ShortDivided;
    ghost var a := limbs[..count];
    rest := 0;
    var i := count;
    ShortStart(a, limbs[..count], divisor);
    while i > 0
      invariant 0 <= i <= count && rest < divisor && Limbs(limbs[..count])
      invariant forall k :: 0 <= k < i ==> limbs[k] == a[k]
      invariant Mag(a[i..]) == Scaled(Mag(limbs[..count][i..]), divisor) + rest
    {
      ghost var before := rest;
      ghost var q: seq<nat> := limbs[..count];
      var digit;
      digit, rest := DivideLimb(rest, limbs[i - 1], divisor);
      limbs[i - 1] := digit;
      assert limbs[..count] == q[i - 1 := digit];
      ShortStep(a, q, i - 1, divisor, before, digit, rest, limbs[..count]);
      i := i - 1;
    }
    assert a[0..] == a && limbs[..count][0..] == limbs[..count];
    n := Trim(limbs, count);
  }

  lemma ShortStart(a: seq<nat>, q: seq<nat>, divisor: nat)
    requires |a| == |q|
    ensures Mag(a[|a|..]) == Scaled(Mag(q[|a|..]), divisor)
  {
  }

  // ---------------------------------------------------------------------------------
  // How many words.

  lemma {:induction false} PowPow(b: nat, j: nat, k: nat)
    ensures Pow(Pow(b, j), k) == Pow(b, j * k)
    decreases k
  {
    if k > 0 {
      PowPow(b, j, k - 1);
      PowAdd(b, j, j * (k - 1));
      assert j + j * (k - 1) == j * k;
    } else {
      assert j * k == 0;
    }
  }

  lemma {:induction false} PowBaseMonotone(b: nat, c: nat, k: nat)
    requires b <= c
    ensures Pow(b, k) <= Pow(c, k)
  {
    if k > 0 {
      PowBaseMonotone(b, c, k - 1);
      MulMonotone(b, Pow(b, k - 1), Pow(c, k - 1));
      MulMonotone(Pow(c, k - 1), b, c);
    }
  }

  lemma PowTwo()
    ensures Pow(2, 8) == 256 && Pow(2, 29) == 0x2000_0000 && Pow(2, 30) == 0x4000_0000 && Pow(2, 32) == WORD
    ensures Pow(2, 16) == 65536
  {
    assert Pow(2, 1) == 2 && Pow(2, 2) == 4 && Pow(2, 4) == 16;
    PowAdd(2, 4, 4);
    PowAdd(2, 8, 8);
    PowAdd(2, 16, 16);
    PowAdd(2, 16, 8);
    PowAdd(2, 24, 4);
    PowAdd(2, 28, 1);
    PowAdd(2, 28, 2);
  }

  /** Words are groups of 32 bits. */
  lemma PowWord(k: nat)
    ensures Pow(WORD, k) == Pow(2, 32 * k)
  {
    PowTwo();
    PowPow(2, 32, k);
  }

  /** Every limb is below 2^30. */
  lemma MagBits(s: seq<nat>)
    requires Limbs(s)
    ensures Mag(s) < Pow(2, 30 * |s|)
  {
    ValBound(BASE, s);
    PowTwo();
    PowBaseMonotone(BASE, Pow(2, 30), |s|);
    PowPow(2, 30, |s|);
  }

  lemma {:induction false} PowOrder(j: nat, k: nat)
    requires Pow(2, j) < Pow(2, k)
    ensures j < k
  {
    if j >= k {
      PowMonotone(2, k, j);
    }
  }

  /** While anything is left, fewer bits have been taken than the limbs can hold. */
  lemma WordRoom(total: nat, rest: nat, low: nat, produced: nat, bits: nat)
    requires total == rest * Pow(WORD, produced) + low && total < Pow(2, bits) && rest > 0
    ensures 32 * produced < bits
  {
    PowWord(produced);
    PowPositive(WORD, produced);
    MulMonotone(Pow(WORD, produced), 1, rest);
    PowOrder(32 * produced, bits);
  }

  lemma TakeWord(w: seq<nat>, produced: nat, rest: nat, rest': nat, word: nat, total: nat)
    requires |w| == produced + 1 && w[produced] == word && rest == Scaled(rest', WORD) + word
    requires total == rest * Pow(WORD, produced) + Bin(w[..produced])
    ensures total == rest' * Pow(WORD, produced + 1) + Bin(w)
  {
    hide Val;
    ValSnoc(WORD, w, produced);
    assert w[..produced + 1] == w;
    var p := Pow(WORD, produced);
    MulDistributes(p, rest' * WORD, word);
    MulAssociative(rest', WORD, p);
  }

  /** The words of a magnitude. */
  method ToWords(limbs: array<U32>, count: nat) returns (words: array<U32>, produced: nat)
    requires count <= limbs.Length && Limbs(limbs[..count])
    ensures fresh(words) && words.Length == (count * 30 + 31) / 32 + 2 && produced + 2 <= words.Length
    ensures Trimmed(words[..produced]) && Bin(words[..produced]) == Mag(limbs[..count])
    ensures forall k :: produced <= k < words.Length ==> words[k] == 0
  {
    hide Val, Pow, Scaled;
    ghost var total := Mag(limbs[..count]);
    MagBits(limbs[..count]);
    words := new U32[(count * 30 + 31) / 32 + 2](_ => 0);
    var scratch := new U32[count](i requires 0 <= i < count reads limbs => limbs[i]);
    assert scratch[..count] == limbs[..count];
    var remaining := Trim(scratch, count);
    produced := 0;
    ValZeros(WORD, words[..0]);
    PowZero(WORD);
    ZeroMagnitude(scratch[..remaining]);
    while remaining > 0
      invariant remaining <= count && Limbs(scratch[..remaining]) && Trimmed(scratch[..remaining])
      invariant remaining > 0 <==> Mag(scratch[..remaining]) > 0
      invariant produced + 2 <= words.Length
      invariant total == Mag(scratch[..remaining]) * Pow(WORD, produced) + Bin(words[..produced])
      invariant forall k :: produced <= k < words.Length ==> words[k] == 0
      invariant remaining == 0 ==> Trimmed(words[..produced])
      decreases Mag(scratch[..remaining])
    {
      ghost var rest := Mag(scratch[..remaining]);
      WordRoom(total, rest, Bin(words[..produced]), produced, count * 30);
      ghost var before := words[..produced];
      var word;
      remaining, word := DivideShort(scratch, remaining, WORD);
      words[produced] := word;
      assert words[..produced + 1] == before + [word];
      TakeWord(words[..produced + 1], produced, rest, Mag(scratch[..remaining]), word, total);
      ZeroMagnitude(scratch[..remaining]);
      ShortLess(rest, Mag(scratch[..remaining]), WORD, word);
      produced := produced + 1;
    }
  }

  lemma PowZero(b: nat)
    ensures Pow(b, 0) == 1
  {
  }

  lemma ShortLess(x: nat, q: nat, d: nat, r: nat)
    requires x == Scaled(q, d) + r && x > 0 && d >= 2
    ensures q < x && (q == 0 ==> r > 0)
  {
    MulMonotone(q, 2, d);
  }

  // ---------------------------------------------------------------------------------
  // Multiplying in place by a small number.

  ghost predicate Splits(limb: nat, scalar: nat, carry: nat, digit: nat, out: nat) {
    limb * scalar + carry == digit + out * BASE
  }

  /** The product fits 64 bits, and what is carried on stays below the bound of the carries. */
  method MultiplyLimb(limb: U32, scalar: U32, carry: U64, ghost bound: nat) returns (digit: U32, out: U64)
    requires limb < BASE && scalar <= bound && carry < bound <= 0x1_0000_0000
    ensures digit < BASE && out < bound && Splits(limb, scalar, carry, digit, out)
  {
    LimbProduct(limb, scalar, carry, bound);
    var product: U64 := limb * scalar + carry;
    digit, out := SplitLimb(product);
    LimbCarry(product, bound);
  }

  lemma LimbProduct(limb: nat, scalar: nat, carry: nat, bound: nat)
    requires limb <= 999_999_999 && scalar <= bound && carry < bound
    ensures 0 <= limb * scalar + carry < 1_000_000_000 * bound
  {
    MulMonotone(limb, scalar, bound);
    MulMonotone(bound, limb, 999_999_999);
  }

  lemma LimbCarry(product: nat, bound: nat)
    requires product < 1_000_000_000 * bound
    ensures product / BASE < bound && product == product % BASE + (product / BASE) * BASE
  {
  }

  lemma MultiplyAddStep(s: seq<nat>, r: seq<nat>, k: nat, scalar: nat, addend: nat, carry: nat, out: nat)
    requires |r| == k + 1 && k < |s| && Splits(s[k], scalar, carry, r[k], out)
    requires Mag(r[..k]) + Place(carry, k) == Scaled(Mag(s[..k]), scalar) + addend
    ensures Mag(r) + Place(out, k + 1) == Scaled(Mag(s[..k + 1]), scalar) + addend
  {
    hide Val;
    var p := Pow(BASE, k);
    ValSnoc(BASE, s, k);
    ValSnoc(BASE, r, k);
    assert r[..k + 1] == r;
    MulDistributes(p, s[k] * scalar, carry);
    MulDistributes(p, r[k], out * BASE);
    MulAssociative(out, BASE, p);
    MulDistributes(scalar, Mag(s[..k]), s[k] * p);
    Rearrange(s[k], scalar, p);
  }

  /** How many limbs the result can have more: one for small factors, never more than two. */
  function ExtraLimbs(scalar: U32, addend: U32): nat {
    if scalar <= BASE && addend < BASE then 1 else 2
  }

  /** `limbs * scalar + addend`, in place, for any factor and term of 32 bits. */
  method MultiplyAdd(limbs: array<U32>, count: nat, scalar: U32, addend: U32) returns (n: nat)
    requires count + ExtraLimbs(scalar, addend) <= limbs.Length && Limbs(limbs[..count])
    modifies limbs
    ensures n <= count + ExtraLimbs(scalar, addend) && Limbs(limbs[..n])
    ensures Mag(limbs[..n]) == Scaled(old(Mag(limbs[..count])), scalar) + addend
    ensures scalar > 0 && old(Trimmed(limbs[..count])) ==> Trimmed(limbs[..n])
  {
    hide Val, Pow, Place, Scaled, Splits;
    ghost var bound := if scalar <= BASE && addend < BASE then BASE else 0x1_0000_0000;
    ghost var s := limbs[..count];
    var carry: U64 := addend;
    var i := 0;
    MultiplyAddStart(s, limbs[..], scalar, addend);
    assert limbs[..][..0] == limbs[..0];
    while i < count
      invariant i <= count && carry < bound && Limbs(limbs[..i])
      invariant forall k :: i <= k < count ==> limbs[k] == s[k]
      invariant Mag(limbs[..i]) + Place(carry, i) == Scaled(Mag(s[..i]), scalar) + addend
    {
      ghost var was, before := carry, limbs[..i];
      var digit;
      digit, carry := MultiplyLimb(limbs[i], scalar, carry, bound);
      limbs[i] := digit;
      assert limbs[..i + 1] == before + [digit];
      MultiplyAddStep(s, limbs[..i + 1], i, scalar, addend, was, carry);
      i := i + 1;
    }
    assert s[..i] == s;
    n := AppendLimbs(limbs, count, carry);
    if scalar > 0 {
      TrimmedScale(s, limbs[..n], scalar, addend);
    }
  }

  /** The limbs of a carry. */
  function LimbsFor(carry: nat): nat {
    if carry == 0 then 0 else if carry < BASE then 1 else 2
  }

  /** Writes a carry as further limbs. */
  method AppendLimbs(limbs: array<U32>, count: nat, carryIn: U64) returns (n: nat)
    requires carryIn < 0x1_0000_0000 && count + LimbsFor(carryIn) <= limbs.Length && Limbs(limbs[..count])
    modifies limbs
    ensures n == count + LimbsFor(carryIn) && Limbs(limbs[..n]) && (n > count ==> limbs[n - 1] > 0)
    ensures Mag(limbs[..n]) == old(Mag(limbs[..count])) + Place(carryIn, count)
  {
    hide Val, Pow, Place;
    var carry: U64 := carryIn;
    n := count;
    while carry > 0
      invariant count <= n <= limbs.Length && carry < 0x1_0000_0000 && Limbs(limbs[..n])
      invariant n + LimbsFor(carry) == count + LimbsFor(carryIn)
      invariant Mag(limbs[..n]) + Place(carry, n) == old(Mag(limbs[..count])) + Place(carryIn, count)
      invariant carry == 0 && n > count ==> limbs[n - 1] > 0
      decreases carry
    {
      ghost var before := limbs[..n];
      limbs[n] := carry % BASE;
      assert limbs[..n + 1] == before + [carry % BASE];
      AppendCarry(before, carry % BASE);
      PlaceSplit(carry, n);
      carry := carry / BASE;
      n := n + 1;
    }
    PlaceNone(n);
  }

  lemma PlaceSplit(carry: nat, n: nat)
    ensures Place(carry, n) == Place(carry % BASE, n) + Place(carry / BASE, n + 1)
  {
    CarryStep(BASE, carry, Pow(BASE, n));
  }

  lemma PlaceNone(n: nat)
    ensures Place(0, n) == 0
  {
  }

  lemma MultiplyAddStart(s: seq<nat>, r: seq<nat>, scalar: nat, addend: nat)
    ensures Mag(r[..0]) + Place(addend, 0) == Scaled(Mag(s[..0]), scalar) + addend
  {
  }

  lemma TrimmedScale(s: seq<nat>, r: seq<nat>, scalar: nat, addend: nat)
    requires Limbs(r) && scalar > 0 && Mag(r) == Scaled(Mag(s), scalar) + addend
    requires |r| == |s| || (|r| > |s| && r[|r| - 1] > 0)
    ensures Trimmed(s) ==> Trimmed(r)
  {
    if Trimmed(s) && |r| == |s| > 0 {
      ValLeading(BASE, s);
      MulMonotone(Mag(s), 1, scalar);
      ValTopDigit(BASE, r);
    }
  }

  // ---------------------------------------------------------------------------------
  // Back to limbs.

  lemma AddWordStep(r: seq<nat>, index: nat, carry: nat, r': seq<nat>)
    requires index < |r| && r' == r[index := (r[index] + carry) % BASE]
    ensures Mag(r') + Place((r[index] + carry) / BASE, index + 1) == Mag(r) + Place(carry, index)
  {
    hide Val;
    var sum := r[index] + carry;
    ValUpdate(BASE, r, index, sum % BASE);
    CarryStep(BASE, sum, Pow(BASE, index));
    MulDistributes(Pow(BASE, index), r[index], carry);
  }

  lemma AppendZero(r: seq<nat>)
    ensures Mag(r + [0]) == Mag(r)
  {
    ValAppend(BASE, r, 0);
  }

  lemma PlaceZero(c: nat, k: nat)
    ensures Place(c, 0) == c && Place(0, k) == 0
  {
  }

  /** Adds one word to a magnitude, in place. */
  method AddWord(limbs: array<U32>, count: nat, word: U32) returns (n: nat)
    requires count + 2 <= limbs.Length && Limbs(limbs[..count]) && Trimmed(limbs[..count])
    modifies limbs
    ensures n <= count + 2 && Limbs(limbs[..n]) && Trimmed(limbs[..n])
    ensures Mag(limbs[..n]) == old(Mag(limbs[..count])) + word
  {
    hide Val, Pow, Place;
    ghost var s := limbs[..count];
    n := count;
    var carry: U64 := word;
    var index := 0;
    PlaceZero(word, 0);
    while carry > 0
      invariant index <= n && count <= n <= count + 2 && Limbs(limbs[..n])
      invariant index == 0 ==> carry == word && n == count
      invariant index > 0 ==> carry <= 5
      invariant n > count && carry > 0 ==> count == 0 && n == index == 1
      invariant n > count && carry == 0 ==> limbs[n - 1] > 0
      invariant Mag(limbs[..n]) + Place(carry, index) == Mag(s) + word
      decreases count + 3 - index
    {
      if index == n {
        AppendZero(limbs[..n]);
        ghost var before := limbs[..n];
        limbs[n] := 0;
        n := n + 1;
        assert limbs[..n] == before + [0];
      }
      var sum: U64 := limbs[index] + carry;
      ghost var r: seq<nat> := limbs[..n];
      AddWordStep(r, index, carry, r[index := sum % BASE]);
      limbs[index] := sum % BASE;
      assert limbs[..n] == r[index := sum % BASE];
      carry := sum / BASE;
      index := index + 1;
    }
    PlaceZero(0, index);
    TrimmedAdd(s, limbs[..n], word);
  }

  lemma TrimmedAdd(s: seq<nat>, r: seq<nat>, word: nat)
    requires Limbs(r) && Trimmed(s) && Mag(r) == Mag(s) + word && |s| <= |r|
    requires |r| > |s| ==> r[|r| - 1] > 0
    ensures Trimmed(r)
  {
    if |r| == |s| > 0 {
      ValLeading(BASE, s);
      ValTopDigit(BASE, r);
    }
  }

  /** A trimmed magnitude below 2^(32 k) has at most two limbs for each word. */
  lemma LimbRoom(s: seq<nat>, k: nat)
    requires Trimmed(s) && Mag(s) < Pow(WORD, k)
    ensures |s| <= 2 * k
  {
    if |s| > 2 * k {
      ValLeading(BASE, s);
      PowMonotone(BASE, 2 * k, |s| - 1);
      PowPow(BASE, 2, k);
      assert Pow(BASE, 2) == BASE * Pow(BASE, 1);
      PowBaseMonotone(WORD, Pow(BASE, 2), k);
    }
  }

  lemma ShiftWord(s: seq<nat>, i: nat)
    requires 0 < i <= |s|
    ensures Bin(s[i - 1..]) == Scaled(Scaled(Bin(s[i..]), 65536), 65536) + s[i - 1]
  {
    assert s[i - 1..][1..] == s[i..];
  }

  lemma SuffixBound(s: seq<nat>, i: nat)
    requires i <= |s| && Digits(WORD, s)
    ensures Bin(s[i..]) < Pow(WORD, |s| - i)
  {
    hide Val, Pow;
    ValBound(WORD, s[i..]);
  }

  /** The canonical integer with the given sign and the magnitude held in words. */
  method WordsToValue(negative: bool, words: array<U32>, wordCount: nat) returns (v: Integer)
    requires wordCount <= words.Length
    ensures Canonical(v) && Meaning(v) == Signed(negative, Bin(words[..wordCount]))
  {
    hide Val, Pow, Scaled;
    ghost var all := words[..wordCount];
    var used := wordCount;
    while used > 0 && words[used - 1] == 0
      invariant used <= wordCount && forall k :: used <= k < wordCount ==> words[k] == 0
    {
      used := used - 1;
    }
    ghost var w := words[..used];
    ValTrim(WORD, all, used);
    assert all[..used] == w;
    if used == 0 {
      ValZeros(WORD, w);
      return Small(0);
    }
    var limbs := new U32[used * 2 + 3](_ => 0);
    var count := 0;
    var i := used;
    ValZeros(BASE, limbs[..0]);
    ValZeros(WORD, w[used..]);
    while i > 0
      invariant 0 <= i <= used && count <= 2 * (used - i) && count <= limbs.Length
      invariant Limbs(limbs[..count]) && Trimmed(limbs[..count]) && Mag(limbs[..count]) == Bin(w[i..])
    {
      ShiftWord(w, i);
      SuffixBound(w, i - 1);
      count := AppendWord(limbs, count, words[i - 1]);
      LimbRoom(limbs[..count], used - (i - 1));
      i := i - 1;
    }
    assert w[0..] == w;
    var trimmed := Trim(limbs, count);
    v := Canonicalize(negative, limbs, trimmed);
  }

  /** `limbs * 2^32 + word`, as two multiplications by 2^16 and an addition. */
  method AppendWord(limbs: array<U32>, count: nat, word: U32) returns (n: nat)
    requires count + 5 <= limbs.Length && Limbs(limbs[..count]) && Trimmed(limbs[..count])
    modifies limbs
    ensures n <= limbs.Length && Limbs(limbs[..n]) && Trimmed(limbs[..n])
    ensures Mag(limbs[..n]) == Scaled(Scaled(old(Mag(limbs[..count])), 65536), 65536) + word
  {
    hide Val, Scaled;
    n := MultiplyAdd(limbs, count, 65536, 0);
    n := MultiplyAdd(limbs, n, 65536, 0);
    n := AddWord(limbs, n, word);
  }
}
