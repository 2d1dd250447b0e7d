/** Shifts of integers of any size. */
module Shifts {
  import opened Positional
  import opened Magnitude
  import opened Bignum
  import opened Words
  import opened Bits

  // ---------------------------------------------------------------------------------
  // Left.

  /** A word shifted left by `part` bits, as a low and a high word. */
  ghost predicate Spread(word: nat, part: nat, low: nat, high: nat) {
    && word * Pow(2, part) == low + high * WORD
    && low < WORD && high < Pow(2, part)
    && exists m: nat :: low == m * Pow(2, part)
  }

  lemma SpreadArithmetic(word: nat, p: nat, h: nat)
    requires p > 0 && h > 0 && word < p * h
    ensures word * p == (word % h) * p + (word / h) * (p * h)
    ensures (word % h) * p < p * h && word / h < p
  {
    var q, r := word / h, word % h;
    assert word == h * q + r;
    MulDistributes(p, h * q, r);
    Rearrange(h, q, p);
    assert (h * p) * q == q * (p * h);
    MulMonotone(p, r + 1, h);
    MulDistributes(p, r, 1);
    if q >= p {
      MulMonotone(h, p, q);
    }
  }

  lemma SpreadFits(word: nat, p: nat)
    requires word < 0x1_0000_0000 && p < 0x1_0000_0000
    ensures word * p < 0x1_0000_0000_0000_0000
  {
    MulMonotone(word, p, 0xFFFF_FFFF);
    MulMonotone(0xFFFF_FFFF, word, 0xFFFF_FFFF);
  }

  lemma SpreadBits(word: nat, part: nat)
    requires word < WORD && part < 32
    ensures word * Pow(2, part) < 0x1_0000_0000_0000_0000
    ensures Spread(word, part, (word * Pow(2, part)) % WORD, (word * Pow(2, part)) / WORD)
  {
    hide Pow;
    var p, h := Pow(2, part), Pow(2, 32 - part);
    PowPositive(2, part);
    PowPositive(2, 32 - part);
    PowTwo();
    PowAdd(2, part, 32 - part);
    PowSmaller(part);
    SpreadFits(word, p);
    SpreadArithmetic(word, p, h);
    DivUnique(word * p, WORD, word / h, (word % h) * p);
  }

  lemma PowSmaller(part: nat)
    requires part < 32
    ensures Pow(2, part) < 0x1_0000_0000
  {
    PowTwo();
    PowMonotone(2, part, 31);
    assert Pow(2, 32) == 2 * Pow(2, 31);
  }

  /** One more word shifted into place. */
  lemma ShiftLeftStep(words: seq<nat>, out: seq<nat>, i: nat, whole: nat, part: nat, low: nat, high: nat,
                      out': seq<nat>)
    requires i < |words| && i + whole + 1 < |out| && Spread(words[i], part, low, high)
    requires Bin(out) == ShiftedBy(Bin(words[..i]), part, whole)
    requires forall k :: i + whole < k < |out| ==> out[k] == 0
    requires out' == out[i + whole := out[i + whole] + low][i + whole + 1 := high]
    ensures Bin(out') == ShiftedBy(Bin(words[..i + 1]), part, whole)
  {
    hide Val;
    var k := i + whole;
    var p, w, u := Pow(2, part), Pow(WORD, whole), Pow(WORD, i);
    var middle := out[k := out[k] + low];
    ValUpdate(WORD, out, k, out[k] + low);
    ValUpdate(WORD, middle, k + 1, high);
    assert out' == middle[k + 1 := high] && middle[k + 1] == 0;
    ValSnoc(WORD, words, i);
    PowAdd(WORD, i, whole);
    var place := Pow(WORD, k);
    assert Pow(WORD, k + 1) == WORD * place;
    MulDistributes(place, out[k], low);
    assert Bin(out') == Bin(out) + low * place + high * (WORD * place);
    MulDistributes(place, low, high * WORD);
    MulAssociative(high, WORD, place);
    assert Bin(out') == Bin(out) + (words[i] * p) * place;
    PlaceProduct(Bin(words[..i]), words[i], u, p, w);
  }

  lemma PlaceProduct(x: int, y: int, u: int, p: int, w: int)
    ensures (x + y * u) * p * w == x * p * w + (y * p) * (u * w)
  {
    MulDistributes(p, x, y * u);
    MulDistributes(w, x * p, (y * u) * p);
    Rearrange(y, u, p);
    MulAssociative(y * p, u, w);
  }

  /** A word shifted left, in 64 bits. */
  method SpreadWord(word: U32, part: nat) returns (low: U32, high: U32)
    requires part < 32
    ensures Spread(word, part, low, high)
  {
    SpreadBits(word, part);
    PowSmaller(part);
    var spread: U64 := word * Pow(2, part);
    low, high := spread % WORD, spread / WORD;
  }

  function ShiftedBy(m: nat, part: nat, whole: nat): nat {
    m * Pow(2, part) * Pow(WORD, whole)
  }

  lemma ShiftedNothing(part: nat, whole: nat)
    ensures ShiftedBy(0, part, whole) == 0
  {
  }

  /** Multiplication by a power of two. */
  method ShiftLeft(value: View, bits: nat) returns (v: Integer)
    requires ValidView(value)
    ensures Canonical(v) && Meaning(v) == Viewed(value) * Pow(2, bits)
  {
    hide Val, Pow, Spread, ShiftedBy, WordOp;
    var words, used := ToWords(value.limbs, value.count);
    ghost var w := words[..used];
    if used == 0 {
      ValZeros(WORD, w);
      return Small(0);
    }
    var whole, part := bits / 32, bits % 32;
    var width := used + whole + 2;
    var shifted := new U32[width](_ => 0);
    ValZeros(WORD, shifted[..]);
    ValZeros(WORD, w[..0]);
    ShiftedNothing(part, whole);
    var i := 0;
    PowPositive(2, part);
    while i < used
      modifies shifted
      invariant i <= used && shifted[i + whole] < Pow(2, part)
      invariant forall k :: i + whole < k < width ==> shifted[k] == 0
      invariant Bin(shifted[..]) == ShiftedBy(Bin(w[..i]), part, whole)
    {
      var low, high := SpreadWord(words[i], part);
      ghost var out: seq<nat> := shifted[..];
      OrSpread(shifted[i + whole], words[i], part, low, high);
      assert w[i] == words[i];
      ShiftLeftStep(w, out, i, whole, part, low, high,
                    out[i + whole := out[i + whole] + low][i + whole + 1 := high]);
      shifted[i + whole] := WordOp(Or, shifted[i + whole], low, 32);
      shifted[i + whole + 1] := WordOp(Or, shifted[i + whole + 1], high, 32);
      assert shifted[..] == out[i + whole := out[i + whole] + low][i + whole + 1 := high];
      i := i + 1;
    }
    assert w[..i] == w && shifted[..width] == shifted[..];
    v := WordsToValue(value.negative, shifted, width);
    ShiftLeftMeaning(value.negative, Bin(w), bits);
  }

  /** The bits or-ed into a word are disjoint from those already there. */
  lemma OrSpread(before: nat, word: nat, part: nat, low: nat, high: nat)
    requires before < Pow(2, part) && part < 32 && Spread(word, part, low, high)
    ensures high < Pow(2, part)
    ensures WordOp(Or, before, low, 32) == before + low < WORD
    ensures high < WORD && WordOp(Or, 0, high, 32) == high
  {
    PowTwo();
    var m: nat :| low == m * Pow(2, part);
    OrDisjoint(before, m, part, 32);
    WordOpBound(Or, before, low, 32);
    PowMonotone(2, part, 32);
    assert Pow(2, 0) == 1;
    OrDisjoint(0, high, 0, 32);
    assert high * Pow(2, 0) == high;
  }

  lemma ShiftLeftMeaning(negative: bool, m: nat, bits: nat)
    ensures Signed(negative, ShiftedBy(m, bits % 32, bits / 32)) == Signed(negative, m) * Pow(2, bits)
  {
    hide Pow;
    var p, w := Pow(2, bits % 32), Pow(WORD, bits / 32);
    PowWord(bits / 32);
    PowAdd(2, bits % 32, 32 * (bits / 32));
    SignedScale(negative, m, p, w);
  }

  lemma SignedScale(negative: bool, m: nat, p: nat, w: nat)
    ensures m * p * w >= 0 && Signed(negative, m * p * w) == Signed(negative, m) * (p * w)
  {
    MulAssociative(m, p, w);
    MulMonotone(m, 0, p);
    MulMonotone(m * p, 0, w);
    MulNegate(m, p * w);
  }

  // ---------------------------------------------------------------------------------
  // Right.

  /** The bits of word `i` that move down into the word before it. */
  function Lent(words: seq<nat>, i: nat, part: nat): nat {
    PowPositive(2, part);
    if i < |words| then words[i] % Pow(2, part) else 0
  }

  /** One word shifted right, with the bits lent by the next one. */
  ghost predicate Shrunk(word: nat, lent: nat, part: nat, out: nat) {
    PowPositive(2, part);
    out * Pow(2, part) + word % Pow(2, part) == word + lent * WORD && out < WORD
  }

  lemma ShrinkBits(word: nat, next: nat, part: nat)
    requires word < WORD && next < WORD && 0 < part < 32
    ensures Pow(2, part) > 0 && Pow(2, 32 - part) > 0
    ensures var low := word / Pow(2, part);
            var high := (next * Pow(2, 32 - part)) % WORD;
            && low < WORD && high < WORD && WordOp(Or, low, high, 32) < WORD
            && Shrunk(word, next % Pow(2, part), part, WordOp(Or, low, high, 32))
  {
    hide Pow, WordOp;
    var p, h := Pow(2, part), Pow(2, 32 - part);
    HighBits(next, part);
    LowBits(word, part);
    var low, m := word / p, next % p;
    OrDisjoint(low, m, 32 - part, 32);
    WordOpBound(Or, low, m * h, 32);
    ShrinkSum(word, m, p, h);
  }

  /** The bits lent, moved to the top of the word. */
  lemma HighBits(next: nat, part: nat)
    requires next < WORD && 0 < part < 32
    ensures Pow(2, part) > 0 && Pow(2, 32 - part) > 0 && Pow(2, part) * Pow(2, 32 - part) == WORD == Pow(2, 32)
    ensures 0 <= (next % Pow(2, part)) * Pow(2, 32 - part) < WORD
    ensures (next * Pow(2, 32 - part)) % WORD == (next % Pow(2, part)) * Pow(2, 32 - part)
  {
    hide Pow;
    var p, h := Pow(2, part), Pow(2, 32 - part);
    PowPositive(2, part);
    PowPositive(2, 32 - part);
    PowTwo();
    PowAdd(2, part, 32 - part);
    SpreadArithmetic(next, h, p);
    DivUnique(next * h, WORD, next / p, (next % p) * h);
  }

  /** The bits that stay fit below them. */
  lemma LowBits(word: nat, part: nat)
    requires word < WORD && 0 < part < 32
    ensures Pow(2, part) > 0 && word / Pow(2, part) < Pow(2, 32 - part) && word / Pow(2, part) < WORD
  {
    hide Pow;
    PowPositive(2, part);
    PowPositive(2, 32 - part);
    PowTwo();
    PowAdd(2, part, 32 - part);
    SpreadArithmetic(word, Pow(2, 32 - part), Pow(2, part));
    Quotient(word, Pow(2, part));
  }

  lemma ShrinkSum(word: nat, m: nat, p: nat, h: nat)
    requires p > 0 && p * h == WORD
    ensures (word / p + m * h) * p + word % p == word + m * WORD
  {
    Quotient(word, p);
    MulDistributes(p, word / p, m * h);
    MulAssociative(m, h, p);
  }

  /** What the shifted words add up to, word by word from the bottom. */
  lemma ShiftRightStep(words: seq<nat>, out: seq<nat>, j: nat, part: nat)
    requires j < |words| && |out| == j + 1 && Shrunk(words[j], Lent(words, j + 1, part), part, out[j])
    requires Scaled(Bin(out[..j]), Pow(2, part)) + Lent(words, 0, part) ==
             Bin(words[..j]) + Lent(words, j, part) * Pow(WORD, j)
    ensures Scaled(Bin(out), Pow(2, part)) + Lent(words, 0, part) ==
            Bin(words[..j + 1]) + Lent(words, j + 1, part) * Pow(WORD, j + 1)
  {
    hide Val;
    var p, place := Pow(2, part), Pow(WORD, j);
    PowPositive(2, part);
    ValSnoc(WORD, words, j);
    ValSnoc(WORD, out, j);
    assert out[..j + 1] == out;
    ShrinkArithmetic(Bin(out[..j]), out[j], place, p, words[j] % p, words[j], Lent(words, j + 1, part), WORD);
  }

  lemma ShrinkArithmetic(x: int, digit: int, place: int, p: int, lent: int, word: int, next: int, base: int)
    requires digit * p + lent == word + next * base
    ensures (x + digit * place) * p + lent * place == x * p + word * place + next * (base * place)
  {
    MulDistributes(p, x, digit * place);
    Rearrange(digit, place, p);
    MulDistributes(place, digit * p, lent);
    MulDistributes(place, word, next * base);
    MulAssociative(next, base, place);
  }

  /** One word of the result: its own high bits and the low bits of the next word. */
  method ShrinkWord(words: array<U32>, i: nat, used: nat, part: nat, ghost u: seq<nat>, ghost whole: nat)
    returns (out: U32)
    requires whole <= i < used <= words.Length && part < 32 && u == words[whole..used]
    ensures Shrunk(u[i - whole], Lent(u, i - whole + 1, part), part, out)
  {
    hide Pow, WordOp, Shrunk;
    PowPositive(2, part);
    var low := words[i] / Pow(2, part);
    assert u[i - whole] == words[i];
    if part != 0 && i + 1 < used {
      ShrinkBits(words[i], words[i + 1], part);
      assert u[i + 1 - whole] == words[i + 1];
      out := WordOp(Or, low, (words[i + 1] * Pow(2, 32 - part)) % WORD, 32);
    } else {
      NothingLent(u, i - whole + 1, part);
      ShrinkAlone(words[i], part);
      out := low;
    }
  }

  lemma ShrinkAlone(word: nat, part: nat)
    requires word < WORD
    ensures Pow(2, part) > 0 && word / Pow(2, part) < WORD && Shrunk(word, 0, part, word / Pow(2, part))
  {
    PowPositive(2, part);
    AtMost(word, Pow(2, part));
    Quotient(word, Pow(2, part));
  }

  lemma NothingLent(u: seq<nat>, i: nat, part: nat)
    ensures part == 0 || i >= |u| ==> Lent(u, i, part) == 0
  {
    assert Pow(2, 0) == 1;
  }

  lemma AtMost(x: nat, d: nat)
    requires d > 0
    ensures x / d <= x
  {
    MulMonotone(x / d, 1, d);
  }

  /** The words from place `whole` on, shifted right by less than a word. */
  method ShrinkWords(words: array<U32>, used: nat, whole: nat, part: nat) returns (result: array<U32>, count: nat)
    requires whole <= used <= words.Length && part < 32
    ensures fresh(result) && result.Length == used + 1 && count == used - whole
    ensures Scaled(Bin(result[..count]), Pow(2, part)) + Lent(words[whole..used], 0, part) == Bin(words[whole..used])
  {
    hide Val, Pow, Shrunk, Lent, Scaled;
    result := new U32[used + 1](_ => 0);
    ghost var u := words[whole..used];
    count := 0;
    var i := whole;
    ShrinkStart(u, result[..0], part);
    while i < used
      modifies result
      invariant whole <= i <= used && count == i - whole
      invariant Scaled(Bin(result[..count]), Pow(2, part)) + Lent(u, 0, part) ==
                Bin(u[..count]) + Lent(u, count, part) * Pow(WORD, count)
    {
      var out := ShrinkWord(words, i, used, part, u, whole);
      ghost var before := result[..count];
      result[count] := out;
      assert result[..count + 1] == before + [out];
      ShiftRightStep(u, result[..count + 1], count, part);
      count := count + 1;
      i := i + 1;
    }
    assert u[..count] == u;
    NothingLent(u, count, part);
  }

  lemma ShrinkStart(u: seq<nat>, r: seq<nat>, part: nat)
    requires r == []
    ensures Scaled(Bin(r), Pow(2, part)) + Lent(u, 0, part) == Bin(u[..0]) + Lent(u, 0, part) * Pow(WORD, 0)
  {
  }

  /** Adds one, with wrap-around of full words. */
  method Increment(result: array<U32>, count: nat) returns (n: nat)
    requires count < result.Length
    modifies result
    ensures n <= result.Length && Bin(result[..n]) == old(Bin(result[..count])) + 1
  {
    hide Val, Pow;
    ghost var s := result[..count];
    n := count;
    var index := 0;
    ValZeros(WORD, s[..0]);
    ValZeros(WORD, result[..0]);
    PowZero(WORD);
    while index < count
      invariant index <= count && forall k :: index <= k < count ==> result[k] == s[k]
      invariant Bin(result[..index]) + Pow(WORD, index) == Bin(s[..index]) + 1
    {
      ghost var before := result[..index];
      result[index] := (result[index] + 1) % WORD;
      assert result[..index + 1] == before + [result[index]];
      IncrementStep(s, result[..index + 1], index);
      if result[index] != 0 {
        assert result[..count][..index + 1] == result[..index + 1];
        IncrementRest(s, result[..count], index);
        return;
      }
      index := index + 1;
    }
    assert s[..index] == s;
    ghost var before := result[..count];
    result[count] := 1;
    n := count + 1;
    assert result[..n] == before + [1];
    ValAppend(WORD, before, 1);
  }

  lemma IncrementStep(s: seq<nat>, r: seq<nat>, i: nat)
    requires i < |s| && |r| == i + 1 && s[i] < WORD && r[i] == (s[i] + 1) % WORD
    requires Bin(r[..i]) + Pow(WORD, i) == Bin(s[..i]) + 1
    ensures r[i] == 0 ==> Bin(r) + Pow(WORD, i + 1) == Bin(s[..i + 1]) + 1
    ensures r[i] != 0 ==> Bin(r) == Bin(s[..i + 1]) + 1
  {
    hide Val;
    ValSnoc(WORD, s, i);
    ValSnoc(WORD, r, i);
    assert r[..i + 1] == r;
    MulDistributes(Pow(WORD, i), s[i], 1);
  }

  lemma IncrementRest(s: seq<nat>, r: seq<nat>, i: nat)
    requires i < |s| == |r| && r[i + 1..] == s[i + 1..] && Bin(r[..i + 1]) == Bin(s[..i + 1]) + 1
    ensures Bin(r) == Bin(s) + 1
  {
    ValSplit(WORD, s, i + 1);
    ValSplit(WORD, r, i + 1);
  }

  /** A nonzero bit among those shifted out. */
  method AnyLost(words: array<U32>, used: nat, whole: nat, part: nat) returns (lost: bool)
    requires whole <= used <= words.Length && part < 32
    ensures lost <==> Bin(words[..whole]) + Lent(words[whole..used], 0, part) != 0
  {
    hide Val, Pow;
    lost := false;
    var i := 0;
    ValZeros(WORD, words[..0]);
    while i < whole
      invariant i <= whole && (lost <==> Bin(words[..i]) != 0)
    {
      lost := lost || words[i] != 0;
      LostStep(words[..used], i);
      assert words[..used][..i] == words[..i] && words[..used][..i + 1] == words[..i + 1];
      i := i + 1;
    }
    PowPositive(2, part);
    NothingLent(words[whole..used], 0, part);
    if whole < used && part != 0 {
      lost := lost || words[whole] % Pow(2, part) != 0;
    }
  }

  lemma LostStep(s: seq<nat>, i: nat)
    requires i < |s|
    ensures Bin(s[..i + 1]) != 0 <==> Bin(s[..i]) != 0 || s[i] != 0
  {
    ValSnoc(WORD, s, i);
    PowPositive(WORD, i);
    if s[i] != 0 {
      MulMonotone(Pow(WORD, i), 1, s[i]);
    }
  }

  /** Floor division by a power of two, for either sign. */
  method ShiftRight(value: View, bits: nat) returns (v: Integer)
    requires ValidView(value)
    ensures Canonical(v) && Pow(2, bits) > 0 && Meaning(v) == Viewed(value) / Pow(2, bits)
  {
    hide Val, Pow, Lent, Scaled;
    PowPositive(2, bits);
    var words, used := ToWords(value.limbs, value.count);
    ghost var w := words[..used];
    if used == 0 {
      ValZeros(WORD, w);
      return Small(0);
    }
    var whole := if bits / 32 > used then used else bits / 32;
    var part := bits % 32;
    var lost := AnyLost(words, used, whole, part);
    var result, count := ShrinkWords(words, used, whole, part);
    ghost var q := Bin(result[..count]);
    assert w[..whole] == words[..whole] && w[whole..] == words[whole..used];
    ShiftRightMeaning(value.negative, w, whole, bits, q, lost);
    if value.negative && lost {
      count := Increment(result, count);
    }
    v := WordsToValue(value.negative, result, count);
  }

  lemma ShiftRightMeaning(negative: bool, w: seq<nat>, whole: nat, bits: nat, q: nat, lost: bool)
    requires Digits(WORD, w) && whole == if bits / 32 > |w| then |w| else bits / 32
    requires Scaled(q, Pow(2, bits % 32)) + Lent(w[whole..], 0, bits % 32) == Bin(w[whole..])
    requires lost <==> Bin(w[..whole]) + Lent(w[whole..], 0, bits % 32) != 0
    ensures Pow(2, bits) > 0
    ensures Signed(negative, if negative && lost then q + 1 else q) == Signed(negative, Bin(w)) / Pow(2, bits)
  {
    hide Val;
    var part := bits % 32;
    var p, place, lent := Pow(2, part), Pow(WORD, whole), Lent(w[whole..], 0, part);
    PowPositive(2, part);
    PowPositive(WORD, whole);
    PowPositive(2, bits);
    ValSplit(WORD, w, whole);
    ValBound(WORD, w[..whole]);
    var rest := Bin(w[..whole]) + place * lent;
    assert rest == 0 <==> !lost by {
      MulMonotone(place, 0, lent);
      if lent > 0 {
        MulMonotone(place, 1, lent);
      }
    }
    MulDistributes(place, q * p, lent);
    assert Bin(w) == place * (q * p) + rest;
    assert Bin(w) == q * Pow(2, bits) + rest && rest < Pow(2, bits) by {
      ShiftRightRest(w, whole, bits, q, rest, lent);
    }
    FloorShift(Bin(w), Pow(2, bits), q, rest);
  }

  lemma ShiftRightRest(w: seq<nat>, whole: nat, bits: nat, q: nat, rest: nat, lent: nat)
    requires Digits(WORD, w) && whole == if bits / 32 > |w| then |w| else bits / 32
    requires Scaled(q, Pow(2, bits % 32)) + lent == Bin(w[whole..]) && lent == Lent(w[whole..], 0, bits % 32)
    requires Bin(w[..whole]) < Pow(WORD, whole) && rest == Bin(w[..whole]) + Pow(WORD, whole) * lent
    ensures Pow(WORD, whole) * (q * Pow(2, bits % 32)) == q * Pow(2, bits) && rest < Pow(2, bits)
  {
    hide Val, Pow;
    var part := bits % 32;
    var p, place := Pow(2, part), Pow(WORD, whole);
    PowWord(whole);
    if bits / 32 <= |w| {
      PowAdd(2, 32 * whole, part);
      assert 32 * whole + part == bits;
      PowPositive(2, part);
      RestArithmetic(place, q, p, lent, Bin(w[..whole]));
    } else {
      assert w[whole..] == [];
      ValZeros(WORD, w[whole..]);
      PowPositive(2, part);
      MulMonotone(q, 1, p);
      PowMonotone(2, 32 * whole, bits);
    }
  }

  lemma RestArithmetic(place: nat, q: nat, p: nat, lent: nat, low: nat)
    requires lent < p && low < place
    ensures place * (q * p) == q * (place * p) && low + place * lent < place * p
  {
    MulAssociative(place, q, p);
    Rearrange(place, q, p);
    MulMonotone(place, lent + 1, p);
    MulDistributes(place, lent, 1);
  }

  lemma FloorShift(m: nat, p: nat, q: nat, rest: nat)
    requires p > 0 && m == q * p + rest && rest < p
    ensures m / p == q
    ensures (0 - m) / p == if rest == 0 then 0 - q else 0 - (q + 1)
  {
    DivUnique(m, p, q, rest);
    MulNegate(p, q);
    if rest == 0 {
      DivUnique(0 - m, p, 0 - q, 0);
    } else {
      MulNegate(p, q + 1);
      MulDistributes(p, q, 1);
      DivUnique(0 - m, p, 0 - (q + 1), p - rest);
    }
  }

  /** A right shift undoes a left shift. */
  lemma ShiftsUndo(x: int, bits: nat)
    ensures Pow(2, bits) > 0 && (x * Pow(2, bits)) / Pow(2, bits) == x
  {
    PowPositive(2, bits);
    DivUnique(x * Pow(2, bits), Pow(2, bits), x, 0);
  }

  /** The same on canonical integers: shifting left and back gives the very integer. */
  method ShiftRoundTrip(v: Integer, bits: nat) returns (back: Integer)
    requires Canonical(v)
    ensures back == v
  {
    var view := ViewOf(v);
    var shifted := ShiftLeft(view, bits);
    view := ViewOf(shifted);
    back := ShiftRight(view, bits);
    ShiftsUndo(Meaning(v), bits);
    CanonicalUnique(back, v);
  }
}
