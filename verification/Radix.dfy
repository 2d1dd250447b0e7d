/** Integers as text in radix 2 to 36. */
module Radix {
  import opened Positional
  import opened Magnitude
  import opened Bignum
  import opened Words

  // ---------------------------------------------------------------------------------
  // Texts and the numbers they stand for.

  const DIGITS: string := "0123456789abcdefghijklmnopqrstuvwxyz"

  function DigitChar(d: nat): char {
    if d < 36 then DIGITS[d] else '?'
  }

  /** The value of a digit character, as the parser reads it. */
  function DigitOf(c: char): int {
    if '0' <= c <= '9' then c as int - '0' as int
    else if 'a' <= c <= 'z' then c as int - 'a' as int + 10
    else c as int - 'A' as int + 10
  }

  predicate IsDigit(c: char, radix: nat) {
    0 <= DigitOf(c) < radix
  }

  lemma DigitRoundTrip(d: nat)
    requires d < 36
    ensures DigitOf(DigitChar(d)) == d && DigitChar(d) != '-'
  {
  }

  /** The digits of a number, the least significant one first. */
  function DigitsOf(n: nat, radix: nat): (s: seq<nat>)
    requires radix >= 2
  {
    if n == 0 then [] else
      Smaller(n, radix);
      [n % radix] + DigitsOf(n / radix, radix)
  }

  lemma Smaller(n: nat, d: nat)
    requires n > 0 && d >= 2
    ensures n / d < n
  {
    MulMonotone(n / d, 2, d);
  }

  lemma {:induction false} DigitsOfMeaning(n: nat, radix: nat)
    requires radix >= 2
    ensures Val(radix, DigitsOf(n, radix)) == n && Digits(radix, DigitsOf(n, radix)) && Trimmed(DigitsOf(n, radix))
  {
    if n > 0 {
      Smaller(n, radix);
      DigitsOfMeaning(n / radix, radix);
      var s := DigitsOf(n / radix, radix);
      assert DigitsOf(n, radix)[1..] == s;
      Quotient(n, radix);
    }
  }

  /** Little-endian digits written the usual way round. */
  function Str(s: seq<nat>): string {
    if |s| == 0 then "" else Str(s[1..]) + [DigitChar(s[0])]
  }

  lemma {:induction false} StrAppend(s: seq<nat>, t: seq<nat>)
    ensures Str(s + t) == Str(t) + Str(s)
  {
    if |s| == 0 {
      assert s + t == t;
    } else {
      assert (s + t)[1..] == s[1..] + t;
      StrAppend(s[1..], t);
    }
  }

  lemma {:induction false} StrLength(s: seq<nat>)
    ensures |Str(s)| == |s|
  {
    if |s| > 0 {
      StrLength(s[1..]);
    }
  }

  /** The text of an integer: a minus sign if it is negative, and no leading zero. */
  function Text(x: int, radix: nat): string
    requires radix >= 2
  {
    if x == 0 then "0"
    else if x < 0 then "-" + Str(DigitsOf(-x, radix))
    else Str(DigitsOf(x, radix))
  }

  /** The number a digit string stands for. */
  function Parse(s: string, radix: nat): int {
    if |s| == 0 then 0 else Parse(s[..|s| - 1], radix) * radix + DigitOf(s[|s| - 1])
  }

  lemma {:induction false} ParseStr(s: seq<nat>, radix: nat)
    requires radix <= 36 && Digits(radix, s)
    ensures Parse(Str(s), radix) == Val(radix, s)
  {
    if |s| > 0 {
      var t := Str(s);
      assert t[..|t| - 1] == Str(s[1..]) && t[|t| - 1] == DigitChar(s[0]);
      DigitRoundTrip(s[0]);
      ParseStr(s[1..], radix);
    }
  }

  lemma {:induction false} StrIsDigits(s: seq<nat>, radix: nat)
    requires radix <= 36 && Digits(radix, s)
    ensures forall i :: 0 <= i < |Str(s)| ==> IsDigit(Str(s)[i], radix) && Str(s)[i] != '-'
  {
    if |s| > 0 {
      StrIsDigits(s[1..], radix);
      DigitRoundTrip(s[0]);
    }
  }

  /** Writing and reading back: a minus sign for negative numbers, then digits that parse to
      the absolute value. */
  lemma TextRoundTrip(x: int, radix: nat)
    requires 2 <= radix <= 36
    ensures var t := Text(x, radix);
            var body := if x < 0 then t[1..] else t;
            && |t| > 0 && (t[0] == '-' <==> x < 0)
            && |body| > 0 && (forall i :: 0 <= i < |body| ==> IsDigit(body[i], radix))
            && Parse(body, radix) == if x < 0 then -x else x
  {
    if x == 0 {
      assert "0"[..0] == "";
    } else {
      var m := if x < 0 then -x else x;
      DigitsOfMeaning(m, radix);
      ParseStr(DigitsOf(m, radix), radix);
      StrIsDigits(DigitsOf(m, radix), radix);
      StrLength(DigitsOf(m, radix));
      if x < 0 {
        assert Text(x, radix)[1..] == Str(DigitsOf(m, radix));
      }
    }
  }

  // ---------------------------------------------------------------------------------
  // Writing in any radix.

  /** Never more than 30 digits for each limb. */
  lemma DigitRoom(total: nat, rest: nat, low: nat, produced: nat, radix: nat, bits: nat)
    requires total == rest * Pow(radix, produced) + low && total < Pow(2, bits) && rest > 0 && radix >= 2
    ensures produced < bits
  {
    PowPositive(radix, produced);
    MulMonotone(Pow(radix, produced), 1, rest);
    PowBaseMonotone(2, radix, produced);
    PowOrder(produced, bits);
  }

  lemma TakeDigit(s: seq<nat>, produced: nat, rest: nat, rest': nat, radix: nat, total: nat)
    requires |s| == produced + 1 && rest == Scaled(rest', radix) + s[produced]
    requires total == rest * Pow(radix, produced) + Val(radix, s[..produced])
    ensures total == rest' * Pow(radix, produced + 1) + Val(radix, s)
  {
    hide Val;
    ValSnoc(radix, s, produced);
    assert s[..produced + 1] == s;
    var p := Pow(radix, produced);
    MulDistributes(p, rest' * radix, s[produced]);
    MulAssociative(rest', radix, p);
  }

  /** The digit characters of a magnitude, the least significant first. */
  method WriteDigits(limbs: array<U32>, count: nat, radix: nat, reversed: array<char>)
    returns (produced: nat, ghost s: seq<nat>)
    requires count <= limbs.Length && Limbs(limbs[..count]) && 2 <= radix <= 36
    requires reversed.Length == count * 30 + 3
    modifies reversed
    ensures produced == |s| <= count * 30 && s == DigitsOf(Mag(limbs[..count]), radix)
    ensures forall k :: 0 <= k < produced ==> reversed[k] == DigitChar(s[k])
  {
    hide Val, Pow, Scaled, DigitsOf;
    ghost var total := Mag(limbs[..count]);
    MagBits(limbs[..count]);
    var scratch := new U32[count](i requires 0 <= i < count reads limbs => limbs[i]);
    assert scratch[..count] == limbs[..count];
    var remaining := Trim(scratch, count);
    produced, s := 0, [];
    ValZeros(radix, s[..0]);
    PowZero(radix);
    ZeroMagnitude(scratch[..remaining]);
    while remaining > 0
      invariant remaining <= count && Limbs(scratch[..remaining]) && Trimmed(scratch[..remaining])
      invariant remaining > 0 <==> Mag(scratch[..remaining]) > 0
      invariant produced == |s| <= count * 30 && Digits(radix, s)
      invariant total == Mag(scratch[..remaining]) * Pow(radix, produced) + Val(radix, s)
      invariant forall k :: 0 <= k < produced ==> reversed[k] == DigitChar(s[k])
      invariant remaining == 0 ==> Trimmed(s)
      decreases Mag(scratch[..remaining])
    {
      ghost var rest := Mag(scratch[..remaining]);
      DigitRoom(total, rest, Val(radix, s), produced, radix, count * 30);
      var digit;
      remaining, digit := DivideShort(scratch, remaining, radix);
      reversed[produced] := DigitChar(digit);
      assert (s + [digit])[..produced] == s;
      s := s + [digit];
      TakeDigit(s, produced, rest, Mag(scratch[..remaining]), radix, total);
      ZeroMagnitude(scratch[..remaining]);
      ShortLess(rest, Mag(scratch[..remaining]), radix, digit);
      produced := produced + 1;
    }
    DigitsOfMeaning(total, radix);
    ValInjective(radix, s, DigitsOf(total, radix));
  }

  /** Digits written from the lowest up, and a sign after them, in reading order. */
  function ReadingOrder(written: string): (text: string)
    ensures |text| == |written|
  {
    seq(|written|, i requires 0 <= i < |written| => written[|written| - 1 - i])
  }

  /** Puts the first `n` characters of the digit buffer into reading order. */
  method PutInOrder(buffer: array<char>, n: nat)
    requires n <= buffer.Length
    modifies buffer
    ensures buffer[..n] == ReadingOrder(old(buffer[..n]))
  {
    ghost var written := buffer[..n];
    var low := 0;
    while low < n / 2
      invariant low <= n / 2
      invariant forall k :: 0 <= k < low ==> buffer[k] == written[n - 1 - k]
      invariant forall k :: low <= k < n - low ==> buffer[k] == written[k]
      invariant forall k :: n - low <= k < n ==> buffer[k] == written[n - 1 - k]
    {
      var high := n - 1 - low;
      var c := buffer[low];
      buffer[low] := buffer[high];
      buffer[high] := c;
      low := low + 1;
    }
  }

  /** The digits in reading order are the digit string. */
  lemma {:induction false} DigitsInOrder(chars: string, s: seq<nat>)
    requires |chars| == |s| && forall k :: 0 <= k < |s| ==> chars[k] == DigitChar(s[k])
    ensures ReadingOrder(chars) == Str(s)
    decreases |s|
  {
    if |s| > 0 {
      DigitsInOrder(chars[1..], s[1..]);
      var order := ReadingOrder(chars[1..]);
      assert ReadingOrder(chars) == order + [chars[0]] by {
        assert forall i :: 0 <= i < |order| ==> order[i] == chars[1..][|chars| - 2 - i] == chars[|chars| - 1 - i];
      }
    }
  }

  /** The text of an integer in the given radix; the buffer holds it and a terminator. */
  method ToRadixString(value: View, radix: nat) returns (text: string)
    requires ValidView(value) && 2 <= radix <= 36 && (value.negative ==> Viewed(value) < 0)
    ensures text == Text(Viewed(value), radix)
  {
    hide Val, Str, DigitsOf;
    var reversed := new char[value.count * 30 + 3];
    ghost var m := Mag(value.limbs[..value.count]);
    var produced, s := WriteDigits(value.limbs, value.count, radix, reversed);
    ghost var chars := reversed[..produced];
    NoDigits(m, radix);
    if produced == 0 {
      reversed[produced] := '0';
      produced := produced + 1;
    }
    if value.negative {
      reversed[produced] := '-';
      produced := produced + 1;
    }
    ghost var whole := reversed[..produced];
    PutInOrder(reversed, produced);
    reversed[produced] := '\0';
    text := reversed[..produced];
    SignedText(chars, s, value.negative, m, radix, whole);
  }

  lemma NoDigits(m: nat, radix: nat)
    requires radix >= 2
    ensures |DigitsOf(m, radix)| == 0 <==> m == 0
  {
  }

  lemma SignedText(chars: string, s: seq<nat>, negative: bool, m: nat, radix: nat, whole: string)
    requires radix >= 2 && s == DigitsOf(m, radix) && |chars| == |s| && (negative ==> m > 0)
    requires forall k :: 0 <= k < |s| ==> chars[k] == DigitChar(s[k])
    requires whole == (if |s| == 0 then "0" else chars) + (if negative then "-" else "")
    ensures ReadingOrder(whole) == Text(Signed(negative, m), radix)
  {
    NoDigits(m, radix);
    if m == 0 {
      assert whole == "0";
    } else {
      DigitsInOrder(chars, s);
      if negative {
        assert ReadingOrder(chars + "-") == "-" + ReadingOrder(chars);
      } else {
        assert whole == chars;
      }
    }
  }

  // ---------------------------------------------------------------------------------
  // Reading in any radix.

  lemma {:induction false} ParseBound(s: string, radix: nat)
    requires radix <= 36 && forall i :: 0 <= i < |s| ==> IsDigit(s[i], radix)
    ensures 0 <= Parse(s, radix) < Pow(2, 6 * |s|)
  {
    if |s| > 0 {
      var n := |s| - 1;
      ParseBound(s[..n], radix);
      PowAdd(2, 6 * n, 6);
      PowSix();
      HornerBound(Parse(s[..n], radix), radix, DigitOf(s[n]), Pow(2, 6 * n));
    }
  }

  lemma PowSix()
    ensures Pow(2, 6) == 64
  {
    assert Pow(2, 1) == 2 && Pow(2, 2) == 4 && Pow(2, 3) == 8;
    PowAdd(2, 3, 3);
  }

  lemma HornerBound(x: int, radix: nat, d: int, p: nat)
    requires 0 <= x < p && radix <= 36 && 0 <= d < radix
    ensures 0 <= x * radix + d < p * 64
  {
    MulMonotone(x, 0, radix);
    MulMonotone(x, radix, 36);
  }

  /** A limb holds more than 29 bits. */
  lemma RadixRoom(s: seq<nat>, length: nat)
    requires Trimmed(s) && Mag(s) < Pow(2, 6 * length)
    ensures |s| <= length * 6 / 29 + 1
  {
    if |s| > 0 {
      var c := |s| - 1;
      ValLeading(BASE, s);
      PowTwo();
      PowBaseMonotone(Pow(2, 29), BASE, c);
      PowPow(2, 29, c);
      PowOrder(29 * c, 6 * length);
    }
  }

  /** The integer a validated digit string stands for. */
  method FromRadixDigits(digits: string, radix: nat, negative: bool) returns (v: Integer)
    requires 2 <= radix <= 36 && forall i :: 0 <= i < |digits| ==> IsDigit(digits[i], radix)
    ensures Parse(digits, radix) >= 0 && Canonical(v)
    ensures Meaning(v) == Signed(negative, Parse(digits, radix))
  {
    hide Val, Pow, Scaled, Parse;
    var limbs := new U32[|digits| * 6 / 29 + 3](_ => 0);
    var count := 0;
    var i := 0;
    ValZeros(BASE, limbs[..0]);
    ParseNothing(digits, radix);
    while i < |digits|
      invariant i <= |digits| && count <= i * 6 / 29 + 1 && count < limbs.Length
      invariant Limbs(limbs[..count]) && Trimmed(limbs[..count]) && Mag(limbs[..count]) == Parse(digits[..i], radix)
    {
      var digit := DigitOf(digits[i]);
      ParseStep(digits, radix, i, Mag(limbs[..count]));
      count := MultiplyAdd(limbs, count, radix, digit);
      ParseBound(digits[..i + 1], radix);
      RadixRoom(limbs[..count], i + 1);
      i := i + 1;
    }
    assert digits[..i] == digits;
    var trimmed := Trim(limbs, count);
    v := Canonicalize(negative, limbs, trimmed);
  }

  lemma ParseNothing(s: string, radix: nat)
    ensures Parse(s[..0], radix) == 0
  {
  }

  lemma ParseStep(s: string, radix: nat, i: nat, m: nat)
    requires i < |s| && m == Parse(s[..i], radix)
    ensures Parse(s[..i + 1], radix) == Scaled(m, radix) + DigitOf(s[i])
  {
    assert s[..i + 1][..i] == s[..i];
  }

  /** Text and back: the very integer. */
  method RadixRoundTrip(v: Integer, radix: nat) returns (text: string, back: Integer)
    requires Canonical(v) && 2 <= radix <= 36
    ensures text == Text(Meaning(v), radix) && back == v
  {
    var view := ViewOf(v);
    text := ToRadixString(view, radix);
    TextRoundTrip(Meaning(v), radix);
    var negative := text[0] == '-';
    back := FromRadixDigits(if negative then text[1..] else text, radix, negative);
    CanonicalUnique(back, v);
  }

  // ---------------------------------------------------------------------------------
  // Decimal: nine digits for each limb.

  /** The `n` lowest decimal digits. */
  function Padded(x: nat, n: nat): seq<nat> {
    if n == 0 then [] else [x % 10] + Padded(x / 10, n - 1)
  }

  lemma {:induction false} PaddedMeaning(x: nat, n: nat)
    requires x < Pow(10, n)
    ensures Val(10, Padded(x, n)) == x && Digits(10, Padded(x, n)) && |Padded(x, n)| == n
  {
    if n > 0 {
      assert x / 10 < Pow(10, n - 1);
      PaddedMeaning(x / 10, n - 1);
      assert Padded(x, n)[1..] == Padded(x / 10, n - 1);
    }
  }

  lemma PowTen()
    ensures Pow(10, 9) == BASE
  {
    assert Pow(10, 1) == 10 && Pow(10, 2) == 100 && Pow(10, 3) == 1000;
    PowAdd(10, 3, 3);
    PowAdd(10, 6, 3);
  }

  /** The decimal digits of limbs: nine for each but the top one. */
  function LimbDigits(limbs: seq<nat>): seq<nat> {
    if |limbs| == 0 then []
    else if |limbs| == 1 then DigitsOf(limbs[0], 10)
    else Padded(limbs[0], 9) + LimbDigits(limbs[1..])
  }

  lemma {:induction false} LimbDigitsMeaning(limbs: seq<nat>)
    requires Limbs(limbs) && Trimmed(limbs)
    ensures Val(10, LimbDigits(limbs)) == Mag(limbs)
    ensures Digits(10, LimbDigits(limbs)) && Trimmed(LimbDigits(limbs))
    ensures |limbs| > 0 ==> |LimbDigits(limbs)| > 0
    ensures |LimbDigits(limbs)| <= 9 * |limbs|
  {
    PowTen();
    if |limbs| == 1 {
      DigitsOfMeaning(limbs[0], 10);
      ShortDigits(limbs[0]);
      assert limbs == [] + [limbs[0]];
      ValAppend(BASE, [], limbs[0]);
    } else if |limbs| > 1 {
      LimbDigitsMeaning(limbs[1..]);
      PaddedMeaning(limbs[0], 9);
      ValConcat(10, Padded(limbs[0], 9), LimbDigits(limbs[1..]));
    }
  }

  /** A limb has at most nine digits. */
  lemma ShortDigits(x: nat)
    requires x < BASE
    ensures |DigitsOf(x, 10)| <= 9 && (x > 0 ==> |DigitsOf(x, 10)| > 0)
  {
    DigitsOfMeaning(x, 10);
    PowTen();
    var s := DigitsOf(x, 10);
    if |s| > 9 {
      ValLeading(10, s);
      PowMonotone(10, 9, |s| - 1);
    }
  }

  /** The decimal text of a big integer, written limb by limb from the top; it fits the
      announced buffer length. */
  method ToDecimalString(v: Integer) returns (text: string)
    requires v.Big? && Canonical(v)
    ensures text == Text(Meaning(v), 10)
    ensures |text| + 1 <= (if v.negative then 1 else 0) + |v.limbs| * 9 + 1
  {
    hide Val, Str, DigitsOf, LimbDigits;
    ghost var limbs: seq<nat> := v.limbs;
    assert |limbs| > 0 by {
      if |limbs| == 0 {
        ValZeros(BASE, limbs);
      }
    }
    ghost var sign := if v.negative then "-" else "";
    text := if v.negative then "-" else "";
    text := text + Str(DigitsOf(v.limbs[|v.limbs| - 1], 10));
    var i := |v.limbs| - 1;
    TopDigits(limbs);
    while i > 0
      invariant 0 <= i < |limbs| && text == sign + Str(LimbDigits(limbs[i..]))
    {
      LowerDigits(limbs, i);
      text := text + Str(Padded(v.limbs[i - 1], 9));
      i := i - 1;
    }
    assert limbs[0..] == limbs;
    DecimalText(limbs, v.negative);
  }

  lemma TopDigits(limbs: seq<nat>)
    requires |limbs| > 0
    ensures LimbDigits(limbs[|limbs| - 1..]) == DigitsOf(limbs[|limbs| - 1], 10)
  {
  }

  lemma LowerDigits(limbs: seq<nat>, i: nat)
    requires 0 < i < |limbs|
    ensures Str(LimbDigits(limbs[i - 1..])) == Str(LimbDigits(limbs[i..])) + Str(Padded(limbs[i - 1], 9))
  {
    assert limbs[i - 1..][1..] == limbs[i..];
    StrAppend(Padded(limbs[i - 1], 9), LimbDigits(limbs[i..]));
  }

  lemma DecimalText(limbs: seq<nat>, negative: bool)
    requires Limbs(limbs) && Trimmed(limbs) && |limbs| > 0
    ensures (if negative then "-" else "") + Str(LimbDigits(limbs)) == Text(Signed(negative, Mag(limbs)), 10)
    ensures |Str(LimbDigits(limbs))| <= 9 * |limbs|
  {
    hide Val, Str, DigitsOf, LimbDigits;
    LimbDigitsMeaning(limbs);
    ZeroMagnitude(limbs);
    DigitsOfMeaning(Mag(limbs), 10);
    ValInjective(10, LimbDigits(limbs), DigitsOf(Mag(limbs), 10));
    StrLength(LimbDigits(limbs));
  }

  lemma {:induction false} ParseAppend(s: string, t: string, radix: nat)
    ensures Parse(s + t, radix) == Parse(s, radix) * Pow(radix, |t|) + Parse(t, radix)
    decreases |t|
  {
    if |t| == 0 {
      assert s + t == s;
      assert Parse(t, radix) == 0 && Pow(radix, 0) == 1;
    } else {
      hide Parse;
      var n := |t| - 1;
      assert s + t == (s + t[..n]) + [t[n]] && t == t[..n] + [t[n]];
      ParseSnoc(s + t[..n], t[n], radix);
      ParseSnoc(t[..n], t[n], radix);
      ParseAppend(s, t[..n], radix);
      HornerJoin(Parse(s, radix), Pow(radix, n), Parse(t[..n], radix), radix);
    }
  }

  lemma ParseSnoc(s: string, c: char, radix: nat)
    ensures Parse(s + [c], radix) == Parse(s, radix) * radix + DigitOf(c)
  {
    assert (s + [c])[..|s|] == s;
  }

  lemma HornerJoin(x: int, p: int, y: int, radix: int)
    ensures (x * p + y) * radix == x * (radix * p) + y * radix
  {
    MulDistributes(radix, x * p, y);
    MulAssociative(x, radix, p);
    Rearrange(x, p, radix);
  }

  lemma {:induction false} DecimalBound(s: string)
    requires forall i :: 0 <= i < |s| ==> IsDigit(s[i], 10)
    ensures 0 <= Parse(s, 10) < Pow(10, |s|)
  {
    if |s| > 0 {
      DecimalBound(s[..|s| - 1]);
    }
  }

  /** The value of at most nine digits. */
  method ParseChunk(digits: string, start: nat, end: nat) returns (chunk: U32)
    requires start <= end <= |digits| && end - start <= 9
    requires forall i :: 0 <= i < |digits| ==> IsDigit(digits[i], 10)
    ensures chunk == Parse(digits[start..end], 10) < BASE
  {
    hide Parse;
    chunk := 0;
    var i := start;
    ParseNothing(digits[start..end], 10);
    assert digits[start..start] == digits[start..end][..0];
    while i < end
      invariant start <= i <= end && chunk == Parse(digits[start..i], 10)
    {
      assert digits[start..end][..i - start] == digits[start..i];
      ParseStep(digits[start..end], 10, i - start, chunk);
      assert digits[start..end][..i + 1 - start] == digits[start..i + 1];
      ChunkBound(digits[start..i + 1]);
      chunk := chunk * 10 + DigitOf(digits[i]);
      i := i + 1;
    }
    ChunkBound(digits[start..end]);
  }

  lemma ChunkBound(s: string)
    requires |s| <= 9 && forall i :: 0 <= i < |s| ==> IsDigit(s[i], 10)
    ensures 0 <= Parse(s, 10) < BASE
  {
    DecimalBound(s);
    PowTen();
    PowMonotone(10, |s|, 9);
  }

  /** The integer a decimal digit string stands for, read nine digits at a time. */
  method FromDecimalDigits(digits: string, negative: bool) returns (v: Integer)
    requires forall i :: 0 <= i < |digits| ==> IsDigit(digits[i], 10)
    ensures Parse(digits, 10) >= 0 && Canonical(v)
    ensures Meaning(v) == Signed(negative, Parse(digits, 10))
  {
    hide Val, Pow, Parse, Place, ChunkPlace, IsDigit;
    var limbs := new U32[|digits| / 9 + 1];
    var count := 0;
    var end := |digits|;
    ChunksStart(digits, limbs[..0]);
    while end > 0
      invariant 0 <= end <= |digits| && (end > 0 ==> end + 9 * count == |digits|) && 9 * count <= |digits| + 8
      invariant count <= limbs.Length && Limbs(limbs[..count])
      invariant Parse(digits, 10) == ChunkPlace(Parse(digits[..end], 10), count) + Mag(limbs[..count])
    {
      var chunkLength := if end >= 9 then 9 else end;
      var start := end - chunkLength;
      var chunk := ParseChunk(digits, start, end);
      ghost var before := limbs[..count];
      limbs[count] := chunk;
      assert limbs[..count + 1] == before + [chunk];
      ChunkStep(digits, start, end, count, before, chunk);
      count := count + 1;
      end := start;
    }
    ParseNothing(digits, 10);
    NoPlace(count);
    DecimalBound(digits);
    var trimmed := Trim(limbs, count);
    v := Canonicalize(negative, limbs, trimmed);
  }

  function ChunkPlace(x: int, k: nat): int {
    x * Pow(BASE, k)
  }

  lemma NoPlace(k: nat)
    ensures ChunkPlace(0, k) == 0
  {
  }

  lemma ChunksStart(digits: string, r: seq<nat>)
    requires r == []
    ensures Parse(digits, 10) == ChunkPlace(Parse(digits[..|digits|], 10), 0) + Mag(r)
  {
    assert digits[..|digits|] == digits;
  }

  lemma ChunkStep(digits: string, start: nat, end: nat, count: nat, r: seq<nat>, chunk: nat)
    requires start <= end <= |digits| && (end - start == 9 || start == 0) && |r| == count
    requires chunk == Parse(digits[start..end], 10)
    ensures ChunkPlace(Parse(digits[..end], 10), count) + Mag(r) ==
            ChunkPlace(Parse(digits[..start], 10), count + 1) + Mag(r + [chunk])
  {
    assert digits[..end] == digits[..start] + digits[start..end];
    ParseAppend(digits[..start], digits[start..end], 10);
    PowTen();
    var x, p := Parse(digits[..start], 10), Pow(BASE, count);
    ValAppend(BASE, r, chunk);
    if end - start == 9 {
      MulDistributes(p, x * BASE, chunk);
      MulAssociative(x, BASE, p);
    } else {
      assert x == 0;
    }
  }

  /** Decimal text and back: the very integer. */
  method DecimalRoundTrip(v: Integer) returns (text: string, back: Integer)
    requires v.Big? && Canonical(v)
    ensures text == Text(Meaning(v), 10) && back == v
  {
    text := ToDecimalString(v);
    TextRoundTrip(Meaning(v), 10);
    var negative := text[0] == '-';
    back := FromDecimalDigits(if negative then text[1..] else text, negative);
    CanonicalUnique(back, v);
  }
}
