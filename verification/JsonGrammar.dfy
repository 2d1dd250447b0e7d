/** The texts that spell a JSON value, as RFC 8259 has them, and the parser against them. Where the
    parser differs from that standard the relation follows the parser: strings may hold control
    characters and any other bytes as they are, an escaped surrogate without its partner stands for
    itself, a key ends at its first zero byte, keys may repeat, and the token of a number is shorter
    than 64 bytes. */
module JsonGrammar {
  import opened Wrappers
  import opened Json
  import CString
  import Utf8
  import JsonBack

  const BLANKS: set<char> := {' ', '\t', '\n', '\r'}

  /** From `i` to `j` there is nothing but blanks. */
  ghost predicate Gap(s: string, i: nat, j: nat) {
    i <= j <= |s| && forall k :: i <= k < j ==> s[k] in BLANKS
  }

  // ---------------------------------------------------------------------------------
  // Strings.

  /** `c` is the hexadecimal digit of `n`. */
  ghost predicate HexIs(c: char, n: nat) {
    n < 16 && (c == "0123456789abcdef"[n] || c == "0123456789ABCDEF"[n])
  }

  ghost predicate HexDigits(s: string, i: nat, a: nat, b: nat, c: nat, d: nat) {
    i + 4 <= |s| && HexIs(s[i], a) && HexIs(s[i + 1], b) && HexIs(s[i + 2], c) && HexIs(s[i + 3], d)
  }

  /** At `i` there are the four digits of `u`. */
  ghost predicate HexAt(s: string, i: nat, u: nat) {
    exists a: nat, b: nat, c: nat, d: nat :: HexDigits(s, i, a, b, c, d) && u == ((a * 16 + b) * 16 + c) * 16 + d
  }

  /** At `i` there is the escape of the unit `u`. */
  ghost predicate UnitAt(s: string, i: nat, u: nat) {
    i + 6 <= |s| && s[i] == '\\' && s[i + 1] == 'u' && HexAt(s, i + 2, u)
  }

  /** At `i` there are the escapes of a surrogate pair. */
  ghost predicate PairAt(s: string, i: nat, high: nat, low: nat) {
    UnitAt(s, i, high) && UnitAt(s, i + 6, low) && 0xD800 <= high < 0xDC00 && 0xDC00 <= low < 0xE000
  }

  ghost predicate Paired(s: string, i: nat) {
    exists high: nat, low: nat :: PairAt(s, i, high, low)
  }

  /** The characters that stand for another after a backslash. */
  const SHORT: map<char, nat> :=
    map['"' := 34, '\\' := 92, '/' := 47, 'b' := 8, 'f' := 12, 'n' := 10, 'r' := 13, 't' := 9]

  /** From `i` to `n` there is one piece of a string, which stands for `bytes`: a byte, a short escape,
      the escape of a unit or those of a surrogate pair. */
  ghost predicate PieceAt(s: string, i: nat, n: nat, bytes: string) {
    && i < n <= |s|
    && if s[i] != '\\' then n == i + 1 && s[i] != '"' && bytes == [s[i]]
       else if Paired(s, i) then n == i + 12 && exists high: nat, low: nat :: PairBytes(s, i, high, low, bytes)
       else if i + 1 < |s| && s[i + 1] in SHORT then n == i + 2 && bytes == [SHORT[s[i + 1]] as char]
       else n == i + 6 && exists u: nat :: UnitBytes(s, i, u, bytes)
  }

  ghost predicate PairBytes(s: string, i: nat, high: nat, low: nat, bytes: string) {
    && PairAt(s, i, high, low) && high < 0xDC00 && low < 0xE000
    && bytes == Utf8.Encode(0x10000 + (high - 0xD800) * 0x400 + (low - 0xDC00))
  }

  ghost predicate UnitBytes(s: string, i: nat, u: nat, bytes: string) {
    UnitAt(s, i, u) && u < 0x10000 && bytes == Utf8.Encode(u)
  }

  /** From `i` to `j` there are the pieces of the string `x`. */
  ghost predicate CharsAt(s: string, i: nat, j: nat, x: string)
    decreases j - i
  {
    if i >= j then i == j && x == ""
    else exists n: nat, bytes: string {:trigger PieceAt(s, i, n, bytes)} ::
           i < n <= j && PieceAt(s, i, n, bytes) && bytes <= x && CharsAt(s, n, j, x[|bytes|..])
  }

  lemma HexMeans(c: char, n: nat)
    ensures HexDigit(c) == Some(n) <==> HexIs(c, n)
  {
  }

  lemma HexFound(c: char)
    ensures match HexDigit(c) case Some(n) => HexIs(c, n) && (forall m: nat :: HexIs(c, m) ==> m == n)
                              case None => forall m: nat :: !HexIs(c, m)
  {
    hide HexDigit, HexIs;
    forall m: nat
      ensures HexDigit(c) == Some(m) <==> HexIs(c, m)
    {
      HexMeans(c, m);
    }
  }

  lemma Hex4Means(s: string, i: nat, u: nat)
    ensures Hex4(s, i) == Some(u) <==> HexAt(s, i, u)
  {
    hide HexDigit, HexIs;
    if i + 4 <= |s| {
      HexFound(s[i]);
      HexFound(s[i + 1]);
      HexFound(s[i + 2]);
      HexFound(s[i + 3]);
      var a, b, c, d := HexDigit(s[i]), HexDigit(s[i + 1]), HexDigit(s[i + 2]), HexDigit(s[i + 3]);
      if a.Some? && b.Some? && c.Some? && d.Some? {
        assert HexDigits(s, i, a.value, b.value, c.value, d.value);
      }
    }
  }

  /** What the parser makes of the piece at `i`. */
  function Step(s: string, i: nat): Option<(string, nat)>
    requires i < |s|
  {
    if s[i] == '\\' then
      match ReadEscape(s, i + 1)
      case None => None
      case Some(e) => Some((Utf8.Encode(e.0), e.1))
    else Some(([s[i]], i + 1))
  }

  lemma UnitMeans(s: string, i: nat, u: nat)
    ensures UnitAt(s, i, u) <==> At(s, i, '\\') && At(s, i + 1, 'u') && Hex4(s, i + 2) == Some(u)
  {
    hide Hex4, HexAt;
    Hex4Means(s, i + 2, u);
  }

  lemma StepMeans(s: string, i: nat, n: nat, bytes: string)
    requires i < |s| && s[i] != '"'
    ensures Step(s, i) == Some((bytes, n)) <==> PieceAt(s, i, n, bytes)
  {
    hide Hex4, HexAt, UnitAt, Utf8.Encode;
    if s[i] == '\\' {
      if i + 1 < |s| && s[i + 1] == 'u' {
        EscapedUnit(s, i, n, bytes);
      } else {
        NotUnit(s, i);
        if i + 1 < |s| && s[i + 1] in SHORT {
          ShortByte(s, i);
        }
      }
    }
  }

  lemma NotUnit(s: string, i: nat)
    requires !At(s, i + 1, 'u')
    ensures !Paired(s, i) && forall u :: !UnitAt(s, i, u)
  {
  }

  lemma ShortByte(s: string, i: nat)
    requires i + 1 < |s| && s[i + 1] in SHORT
    ensures Utf8.Encode(SHORT[s[i + 1]]) == [SHORT[s[i + 1]] as char]
  {
  }

  lemma UnitUnique(s: string, i: nat, u: nat, v: nat)
    requires UnitAt(s, i, u) && UnitAt(s, i, v)
    ensures u == v < 0x10000
  {
    hide Hex4, UnitAt;
    UnitMeans(s, i, u);
    UnitMeans(s, i, v);
  }

  lemma PairPiece(s: string, i: nat, high: nat, low: nat, n: nat, bytes: string)
    requires PairAt(s, i, high, low) && high < 0xDC00 && low < 0xE000
    ensures PieceAt(s, i, n, bytes) <==>
            n == i + 12 && bytes == Utf8.Encode(0x10000 + (high - 0xD800) * 0x400 + (low - 0xDC00))
    ensures Paired(s, i)
  {
    hide HexAt, Utf8.Encode;
    forall h: nat, l: nat | PairAt(s, i, h, l)
      ensures h == high && l == low
    {
      UnitUnique(s, i, h, high);
      UnitUnique(s, i + 6, l, low);
    }
    if n == i + 12 && bytes == Utf8.Encode(0x10000 + (high - 0xD800) * 0x400 + (low - 0xDC00)) {
      assert PairBytes(s, i, high, low, bytes);
    }
  }

  lemma UnitPiece(s: string, i: nat, u: nat, n: nat, bytes: string)
    requires UnitAt(s, i, u) && u < 0x10000 && !Paired(s, i)
    ensures PieceAt(s, i, n, bytes) <==> n == i + 6 && bytes == Utf8.Encode(u)
  {
    hide HexAt, Utf8.Encode, Paired;
    forall v: nat | UnitAt(s, i, v)
      ensures v == u
    {
      UnitUnique(s, i, v, u);
    }
    if n == i + 6 && bytes == Utf8.Encode(u) {
      assert UnitBytes(s, i, u, bytes);
    }
  }

  lemma NoPiece(s: string, i: nat, n: nat, bytes: string)
    requires At(s, i, '\\') && At(s, i + 1, 'u') && Hex4(s, i + 2).None?
    ensures !PieceAt(s, i, n, bytes)
  {
    hide HexAt, Hex4, UnitAt, Utf8.Encode;
    forall u: nat
      ensures !UnitAt(s, i, u)
    {
      UnitMeans(s, i, u);
    }
  }

  lemma EscapedUnit(s: string, i: nat, n: nat, bytes: string)
    requires i + 1 < |s| && s[i] == '\\' && s[i + 1] == 'u'
    ensures Step(s, i) == Some((bytes, n)) <==> PieceAt(s, i, n, bytes)
  {
    hide Hex4, HexAt, UnitAt, Utf8.Encode, PieceAt;
    var first, second := Hex4(s, i + 2), Hex4(s, i + 8);
    if first.None? {
      NoPiece(s, i, n, bytes);
    } else {
      var u := first.value;
      UnitMeans(s, i, u);
      if IsHigh(u) && At(s, i + 6, '\\') && At(s, i + 7, 'u') && second.Some? && IsLow(second.value) {
        UnitMeans(s, i + 6, second.value);
        PairPiece(s, i, u, second.value, n, bytes);
      } else {
        NotPaired(s, i, u);
        UnitPiece(s, i, u, n, bytes);
      }
    }
  }

  lemma NotPaired(s: string, i: nat, u: nat)
    requires UnitAt(s, i, u)
    requires !(IsHigh(u) && At(s, i + 6, '\\') && At(s, i + 7, 'u') && Hex4(s, i + 8).Some? && IsLow(Hex4(s, i + 8).value))
    ensures !Paired(s, i)
  {
    hide Hex4, UnitAt;
    forall h: nat, l: nat
      ensures !PairAt(s, i, h, l)
    {
      if PairAt(s, i, h, l) {
        UnitUnique(s, i, h, u);
        UnitMeans(s, i + 6, l);
      }
    }
  }

  /** The parser reads a string exactly when its pieces are there, up to a quote. */
  lemma {:induction false} CharsMeans(s: string, i: nat, j: nat, x: string)
    requires i <= |s|
    ensures ReadChars(s, i) == Some((x, j + 1)) <==> At(s, j, '"') && i <= j && CharsAt(s, i, j, x)
    decreases |s| - i
  {
    hide ReadEscape, PieceAt, Utf8.Encode, Step;
    if i == |s| {
    } else if s[i] == '"' {
      if At(s, j, '"') && i < j && CharsAt(s, i, j, x) {
        var n: nat, bytes: string :| i < n <= j && PieceAt(s, i, n, bytes) && bytes <= x;
        QuoteIsNoPiece(s, i, n, bytes);
      }
    } else {
      var step := Step(s, i);
      ReadStep(s, i);
      if At(s, j, '"') && i <= j && CharsAt(s, i, j, x) {
        var n: nat, bytes: string :| i < n <= j && PieceAt(s, i, n, bytes) && bytes <= x && CharsAt(s, n, j, x[|bytes|..]);
        StepMeans(s, i, n, bytes);
        CharsMeans(s, n, j, x[|bytes|..]);
        assert bytes + x[|bytes|..] == x;
      }
      if ReadChars(s, i) == Some((x, j + 1)) {
        var (bytes, n) := step.value;
        StepMeans(s, i, n, bytes);
        var y := ReadChars(s, n).value.0;
        CharsMeans(s, n, j, y);
        assert x[|bytes|..] == y;
      }
    }
  }

  lemma ReadStep(s: string, i: nat)
    requires i < |s| && s[i] != '"'
    ensures match Step(s, i) case None => ReadChars(s, i) == None
                             case Some(p) => i < p.1 <= |s| && ReadChars(s, i) == Before(p.0, ReadChars(s, p.1))
  {
    hide ReadEscape, Utf8.Encode;
  }

  lemma QuoteIsNoPiece(s: string, i: nat, n: nat, bytes: string)
    requires At(s, i, '"')
    ensures !PieceAt(s, i, n, bytes)
  {
  }

  // ---------------------------------------------------------------------------------
  // Numbers.

  ghost predicate DigitsAt(s: string, i: nat, j: nat) {
    i < j <= |s| && forall k :: i <= k < j ==> '0' <= s[k] <= '9'
  }

  ghost predicate FractionAt(s: string, i: nat, j: nat) {
    i == j || (i < j <= |s| && s[i] == '.' && DigitsAt(s, i + 1, j))
  }

  ghost predicate ExponentAt(s: string, i: nat, j: nat) {
    || i == j
    || (i < j <= |s| && (s[i] == 'e' || s[i] == 'E') &&
          (DigitsAt(s, i + 1, j) || (i + 1 < |s| && (s[i + 1] == '+' || s[i + 1] == '-') && DigitsAt(s, i + 2, j))))
  }

  /** A sign or none to `p`, digits to `q` with no zero before others, a fraction or none to `r`, an
      exponent or none to `j`. */
  ghost predicate NumberParts(s: string, i: nat, p: nat, q: nat, r: nat, j: nat) {
    && j <= |s| && (p == i || (p == i + 1 && i < |s| && s[i] == '-'))
    && DigitsAt(s, p, q) && (s[p] == '0' ==> q == p + 1) && FractionAt(s, q, r) && ExponentAt(s, r, j)
  }

  function Tens(k: nat): nat {
    if k == 0 then 1 else 10 * Tens(k - 1)
  }

  /** The value of digits, the first counting most. */
  function Worth(d: string): int {
    if d == "" then 0 else (d[0] as int - '0' as int) * Tens(|d| - 1) + Worth(d[1..])
  }

  /** The number of such a token: whole when it has neither fraction nor exponent and a double holds
      it exactly. */
  ghost predicate NumberIs(s: string, i: nat, p: nat, q: nat, j: nat, n: Numeral)
    requires i <= p <= q <= j <= |s|
  {
    var w := Worth(s[p..q]);
    n == if q == j && w < 0x20_0000_0000_0000 then Whole(if p == i then w else 0 - w) else Other(s[i..j])
  }

  ghost predicate NumberAt(s: string, i: nat, j: nat, n: Numeral) {
    && j - i < 64
    && exists p: nat, q: nat, r: nat ::
         NumberParts(s, i, p, q, r, j) && i <= p <= q <= j <= |s| && NumberIs(s, i, p, q, j, n)
  }

  lemma {:induction false} WorthAppend(d: string, c: char)
    ensures Worth(d + [c]) == 10 * Worth(d) + (c as int - '0' as int)
  {
    if d == "" {
      assert d + [c] == [c] && [c][1..] == "";
    } else {
      assert (d + [c])[1..] == d[1..] + [c];
      WorthAppend(d[1..], c);
      var x, t := d[0] as int - '0' as int, Tens(|d| - 1);
      assert Tens(|d|) == 10 * t;
      assert x * (10 * t) == 10 * (x * t);
    }
  }

  lemma {:induction false} WorthMeans(d: string)
    requires forall k :: 0 <= k < |d| ==> IsDigit(d[k])
    ensures Worth(d) == DigitsValue(d)
  {
    if d != "" {
      var n := |d| - 1;
      WorthMeans(d[..n]);
      WorthAppend(d[..n], d[n]);
      assert d[..n] + [d[n]] == d;
    }
  }

  lemma DigitsMean(s: string, i: nat, j: nat)
    requires i <= |s|
    ensures DigitsAt(s, i, DigitsEnd(s, i)) <==> DigitsEnd(s, i) > i
    ensures DigitsAt(s, i, j) && (j < |s| ==> !IsDigit(s[j])) ==> DigitsEnd(s, i) == j
  {
    hide DigitsEnd;
    var e := DigitsEnd(s, i);
  }

  /** Nothing that would go on with a number. */
  ghost predicate NumberEnds(s: string, j: nat) {
    j < |s| ==> !('0' <= s[j] <= '9') && s[j] != '.' && s[j] != 'e' && s[j] != 'E'
  }

  lemma FractionRead(s: string, i: nat, j: nat)
    requires i <= |s| && FractionAt(s, i, j) && (j < |s| ==> !IsDigit(s[j]) && s[j] != '.')
    ensures FractionEnd(s, i) == Some(j)
  {
    hide DigitsEnd;
    if i < j {
      DigitsMean(s, i + 1, j);
    }
  }

  lemma ExponentRead(s: string, i: nat, j: nat)
    requires i <= |s| && ExponentAt(s, i, j) && NumberEnds(s, j)
    ensures ExponentEnd(s, i) == Some(j)
  {
    hide DigitsEnd;
    if i < j {
      if DigitsAt(s, i + 1, j) {
        DigitsMean(s, i + 1, j);
      } else {
        DigitsMean(s, i + 2, j);
      }
    }
  }

  lemma FractionFound(s: string, i: nat)
    requires i <= |s| && FractionEnd(s, i).Some?
    ensures FractionAt(s, i, FractionEnd(s, i).value)
  {
    hide DigitsEnd;
    if At(s, i, '.') {
      DigitsMean(s, i + 1, i + 1);
    }
  }

  lemma ExponentFound(s: string, i: nat)
    requires i <= |s| && ExponentEnd(s, i).Some?
    ensures ExponentAt(s, i, ExponentEnd(s, i).value)
  {
    hide DigitsEnd;
    if At(s, i, 'e') || At(s, i, 'E') {
      var k := if At(s, i + 1, '+') || At(s, i + 1, '-') then i + 2 else i + 1;
      DigitsMean(s, k, k);
    }
  }

  lemma NumberFound(s: string, i: nat)
    requires i < |s| && ReadNumber(s, i).Some?
    ensures NumberAt(s, i, ReadNumber(s, i).value.1, ReadNumber(s, i).value.0)
    ensures s[i] == '-' || IsDigit(s[i])
  {
    hide DigitsEnd, FractionEnd, ExponentEnd, Worth, DigitsValue;
    var p := if s[i] == '-' then i + 1 else i;
    var q := DigitsEnd(s, p);
    DigitsMean(s, p, q);
    FractionFound(s, q);
    var r := FractionEnd(s, q).value;
    ExponentFound(s, r);
    var j := ExponentEnd(s, r).value;
    WorthMeans(s[p..q]);
    assert NumberParts(s, i, p, q, r, j);
  }

  lemma NumberRead(s: string, i: nat, j: nat, n: Numeral)
    requires NumberAt(s, i, j, n) && NumberEnds(s, j)
    ensures i < j <= |s| && (s[i] == '-' || IsDigit(s[i])) && ReadNumber(s, i) == Some((n, j))
  {
    hide DigitsEnd, FractionEnd, ExponentEnd, Worth, DigitsValue, FractionAt, ExponentAt;
    var p: nat, q: nat, r: nat :| NumberParts(s, i, p, q, r, j) && i <= p <= q <= j && NumberIs(s, i, p, q, j, n);
    PartsOrder(s, i, p, q, r, j);
    DigitsMean(s, p, q);
    FractionRead(s, q, r);
    ExponentRead(s, r, j);
    WorthMeans(s[p..q]);
  }

  /** Each part ends where the next does not go on with it. */
  lemma PartsOrder(s: string, i: nat, p: nat, q: nat, r: nat, j: nat)
    requires NumberParts(s, i, p, q, r, j) && NumberEnds(s, j)
    ensures q <= r <= j && (q < |s| ==> !IsDigit(s[q])) && (r < |s| ==> !IsDigit(s[r]) && s[r] != '.')
  {
  }

  // ---------------------------------------------------------------------------------
  // Values.

  ghost predicate WordAt(s: string, i: nat, j: nat, w: string) {
    i <= j <= |s| && s[i..j] == w
  }

  /** From `i` to `j` there is the value `v`, with nothing before it and nothing after. */
  ghost predicate ValueAt(s: string, i: nat, j: nat, v: Value)
    decreases j - i, 0
  {
    match v
    case Null => WordAt(s, i, j, "null")
    case Boolean(b) => WordAt(s, i, j, if b then "true" else "false")
    case Number(n) => NumberAt(s, i, j, n)
    case Str(x) => Bracketed(s, i, j, '"', '"') && CharsAt(s, i + 1, j - 1, x)
    case List(items) =>
      Bracketed(s, i, j, '[', ']') && if items == [] then Gap(s, i + 1, j - 1) else ItemsAt(s, i + 1, j - 1, items)
    case Object(ms) =>
      Bracketed(s, i, j, '{', '}') && if ms == [] then Gap(s, i + 1, j - 1) else MembersAt(s, i + 1, j - 1, ms)
  }

  ghost predicate Bracketed(s: string, i: nat, j: nat, open: char, close: char) {
    i + 2 <= j <= |s| && s[i] == open && s[j - 1] == close
  }

  /** From `i` to `j` there is the value `v` among blanks. */
  ghost predicate PaddedAt(s: string, i: nat, j: nat, v: Value)
    decreases j - i, 1
  {
    exists a: nat, b: nat {:trigger Gap(s, i, a), Gap(s, b, j)} ::
      i <= a < b <= j && Gap(s, i, a) && ValueAt(s, a, b, v) && Gap(s, b, j)
  }

  /** From `i` to `j` there are the items with commas between them. */
  ghost predicate ItemsAt(s: string, i: nat, j: nat, items: seq<Value>)
    requires items != []
    decreases j - i, 2
  {
    if |items| == 1 then PaddedAt(s, i, j, items[0])
    else exists c: nat {:trigger At(s, c, ',')} ::
           i <= c < j && At(s, c, ',') && PaddedAt(s, i, c, items[0]) && ItemsAt(s, c + 1, j, items[1..])
  }

  /** The literal of a key, a colon and a value, among blanks. */
  ghost predicate MemberAt(s: string, i: nat, j: nat, m: Member)
    decreases j - i, 2
  {
    exists a: nat, b: nat, c: nat, key: string {:trigger KeyAt(s, i, a, b, c, key)} ::
      i <= c < j && KeyAt(s, i, a, b, c, key) && CString.UpToZero(key, m.key) && PaddedAt(s, c + 1, j, m.value)
  }

  /** Blanks, the literal of a key from `a` to `b`, and blanks up to a colon at `c`. */
  ghost predicate KeyAt(s: string, i: nat, a: nat, b: nat, c: nat, key: string) {
    Gap(s, i, a) && Bracketed(s, a, b, '"', '"') && CharsAt(s, a + 1, b - 1, key) && Gap(s, b, c) && At(s, c, ':')
  }

  ghost predicate MembersAt(s: string, i: nat, j: nat, ms: seq<Member>)
    requires ms != []
    decreases j - i, 3
  {
    if |ms| == 1 then MemberAt(s, i, j, ms[0])
    else exists c: nat {:trigger At(s, c, ',')} ::
           i <= c < j && At(s, c, ',') && MemberAt(s, i, c, ms[0]) && MembersAt(s, c + 1, j, ms[1..])
  }

  /** The whole text spells `v`. */
  ghost predicate Spells(t: string, v: Value) {
    PaddedAt(t, 0, |t|, v)
  }

  // ---------------------------------------------------------------------------------
  // What is spelled is read.

  lemma {:induction false} SkipMeans(s: string, i: nat, j: nat)
    requires i <= |s|
    ensures Gap(s, i, SkipBlank(s, i)) && (SkipBlank(s, i) < |s| ==> s[SkipBlank(s, i)] !in BLANKS)
    ensures Gap(s, i, j) && (j < |s| ==> s[j] !in BLANKS) ==> SkipBlank(s, i) == j
    decreases |s| - i
  {
    if i < |s| && IsBlank(s[i]) {
      SkipMeans(s, i + 1, j);
    }
  }

  /** What may come after a value: a blank, a comma or a closing bracket. */
  ghost predicate Follows(s: string, j: nat) {
    j < |s| ==> s[j] in BLANKS || s[j] in {',', ']', '}'}
  }

  lemma FollowsNumber(s: string, j: nat)
    requires Follows(s, j)
    ensures NumberEnds(s, j)
  {
  }

  /** A value starts with something that is no blank and closes no bracket. */
  lemma ValueStarts(s: string, i: nat, j: nat, v: Value)
    requires ValueAt(s, i, j, v)
    ensures i < j <= |s| && s[i] !in BLANKS && s[i] != ']' && s[i] != '}' && s[i] != ','
  {
    hide CharsAt, ItemsAt, MembersAt, Gap;
    match v
    case Null => assert s[i] == s[i..j][0];
    case Boolean(_) => assert s[i] == s[i..j][0];
    case Number(n) => NumberStarts(s, i, j, n);
    case _ =>
  }

  lemma NumberStarts(s: string, i: nat, j: nat, n: Numeral)
    requires NumberAt(s, i, j, n)
    ensures i < j <= |s| && (s[i] == '-' || '0' <= s[i] <= '9')
  {
  }

  lemma GapFollows(s: string, b: nat, j: nat)
    requires Gap(s, b, j) && Follows(s, j)
    ensures Follows(s, b)
  {
  }

  lemma SkipTwice(s: string, i: nat)
    requires i <= |s|
    ensures SkipBlank(s, SkipBlank(s, i)) == SkipBlank(s, i)
  {
    hide SkipBlank;
    var j := SkipBlank(s, i);
    SkipMeans(s, i, j);
    SkipMeans(s, j, j);
  }

  lemma ValueSkips(s: string, i: nat)
    requires i <= |s|
    ensures ReadValue(s, SkipBlank(s, i)) == ReadValue(s, i)
  {
    hide SkipBlank, ReadChars, ReadNumber, ReadItems, ReadMembers, Literal, IsDigit;
    SkipTwice(s, i);
  }

  lemma ItemsSkip(s: string, i: nat)
    requires i <= |s|
    ensures ReadItems(s, SkipBlank(s, i)) == ReadItems(s, i)
  {
    hide SkipBlank, ReadValue;
    ValueSkips(s, i);
  }

  lemma MembersSkip(s: string, i: nat)
    requires i <= |s|
    ensures ReadMembers(s, SkipBlank(s, i)) == ReadMembers(s, i)
  {
    hide SkipBlank, ReadValue, ReadChars, CString.Cut;
    SkipTwice(s, i);
  }

  lemma {:induction false} ValueRead(s: string, i: nat, a: nat, b: nat, v: Value)
    requires Gap(s, i, a) && ValueAt(s, a, b, v) && Follows(s, b)
    ensures ReadValue(s, i) == Some((v, b))
    decreases b - a, 0
  {
    hide SkipBlank, ReadValue, ReadItems, ReadMembers, ItemsAt, MembersAt, Follows;
    ValueStarts(s, a, b, v);
    SkipMeans(s, i, a);
    if v.List? {
      SkipMeans(s, a + 1, b - 1);
      ItemsSkip(s, a + 1);
      if v.items != [] {
        ItemsRead(s, a + 1, b - 1, v.items);
      }
      ListMade(s, i, a, b, v.items);
    } else if v.Object? {
      SkipMeans(s, a + 1, b - 1);
      MembersSkip(s, a + 1);
      if v.members != [] {
        MembersRead(s, a + 1, b - 1, v.members);
      }
      ObjectMade(s, i, a, b, v.members);
    } else {
      ScalarRead(s, i, a, b, v);
    }
  }

  /** A list from the parts the parser finds. */
  lemma ListMade(s: string, i: nat, a: nat, b: nat, items: seq<Value>)
    requires i <= |s| && SkipBlank(s, i) == a && At(s, a, '[')
    requires var k := SkipBlank(s, a + 1);
             if items == [] then At(s, k, ']') && b == k + 1
             else !At(s, k, ']') && ReadItems(s, k) == Some((items, b))
    ensures ReadValue(s, i) == Some((List(items), b))
  {
    hide SkipBlank, ReadItems, ReadMembers, ReadChars, ReadNumber;
  }

  lemma ObjectMade(s: string, i: nat, a: nat, b: nat, ms: seq<Member>)
    requires i <= |s| && SkipBlank(s, i) == a && At(s, a, '{')
    requires var k := SkipBlank(s, a + 1);
             if ms == [] then At(s, k, '}') && b == k + 1
             else !At(s, k, '}') && ReadMembers(s, k) == Some((ms, b))
    ensures ReadValue(s, i) == Some((Object(ms), b))
  {
    hide SkipBlank, ReadItems, ReadMembers, ReadChars, ReadNumber;
  }

  lemma ScalarRead(s: string, i: nat, a: nat, b: nat, v: Value)
    requires i <= a < |s| && SkipBlank(s, i) == a && ValueAt(s, a, b, v) && Follows(s, b) && !v.List? && !v.Object?
    ensures ReadValue(s, i) == Some((v, b))
  {
    hide SkipBlank, ReadChars, ReadNumber, ReadItems, ReadMembers, CharsAt, ItemsAt, MembersAt, NumberAt, Follows;
    match v
    case Null => WordRead(s, a, b, "null");
    case Boolean(t) => WordRead(s, a, b, if t then "true" else "false");
    case Number(n) =>
      FollowsNumber(s, b);
      NumberRead(s, a, b, n);
    case Str(x) => CharsMeans(s, a + 1, b - 1, x);
  }

  lemma WordRead(s: string, i: nat, j: nat, w: string)
    requires WordAt(s, i, j, w) && |w| > 0
    ensures Literal(s, i, w) && j == i + |w| && s[i] == w[0]
  {
  }

  lemma {:induction false} PaddedRead(s: string, i: nat, j: nat, v: Value) returns (b: nat)
    requires PaddedAt(s, i, j, v) && Follows(s, j) && (j < |s| ==> s[j] !in BLANKS)
    ensures ReadValue(s, i) == Some((v, b)) && SkipBlank(s, b) == j
    ensures i <= |s| && !At(s, SkipBlank(s, i), ']') && !At(s, SkipBlank(s, i), '}')
    decreases j - i, 1
  {
    hide SkipBlank, ReadValue, Follows;
    var a: nat, e: nat :| i <= a < e <= j && Gap(s, i, a) && ValueAt(s, a, e, v) && Gap(s, e, j);
    b := e;
    hide ValueAt;
    GapFollows(s, b, j);
    ValueRead(s, i, a, b, v);
    ValueStarts(s, a, b, v);
    SkipMeans(s, i, a);
    SkipMeans(s, b, j);
  }

  lemma {:induction false} ItemsRead(s: string, i: nat, j: nat, items: seq<Value>)
    requires items != [] && ItemsAt(s, i, j, items) && At(s, j, ']')
    ensures i <= |s| && ReadItems(s, i) == Some((items, j + 1)) && !At(s, SkipBlank(s, i), ']')
    decreases j - i, 2
  {
    hide SkipBlank, ReadValue, PaddedAt;
    if |items| == 1 {
      var b := PaddedRead(s, i, j, items[0]);
      assert [items[0]] == items;
    } else {
      var c: nat :| i <= c < j && At(s, c, ',') && PaddedAt(s, i, c, items[0]) && ItemsAt(s, c + 1, j, items[1..]);
      var b := PaddedRead(s, i, c, items[0]);
      ItemsRead(s, c + 1, j, items[1..]);
      assert [items[0]] + items[1..] == items;
    }
  }

  /** What the parser makes of one member. */
  lemma {:induction false} MemberRead(s: string, i: nat, j: nat, m: Member) returns (c: nat, key: string, e: nat, b: nat)
    requires MemberAt(s, i, j, m) && Follows(s, j) && (j < |s| ==> s[j] !in BLANKS)
    ensures i <= |s| && At(s, SkipBlank(s, i), '"') && ReadChars(s, SkipBlank(s, i) + 1) == Some((key, e)) && e <= |s|
    ensures SkipBlank(s, e) == c && At(s, c, ':') && m.key == CString.Cut(key)
    ensures ReadValue(s, c + 1) == Some((m.value, b)) && SkipBlank(s, b) == j
    decreases j - i, 2
  {
    hide SkipBlank, ReadValue, Follows, PaddedAt, CharsAt, ReadChars;
    var a: nat, f: nat, d: nat, k: string :|
      i <= d < j && KeyAt(s, i, a, f, d, k) && CString.UpToZero(k, m.key) && PaddedAt(s, d + 1, j, m.value);
    c, key, e := d, k, f;
    CString.CutMeans(key, m.key);
    SkipMeans(s, i, a);
    CharsMeans(s, a + 1, e - 1, key);
    SkipMeans(s, e, c);
    b := PaddedRead(s, c + 1, j, m.value);
  }

  /** Members from the parts the parser finds. */
  lemma MembersMade(s: string, i: nat, c: nat, key: string, e: nat, b: nat, j: nat, m: Member)
    requires i <= |s| && At(s, SkipBlank(s, i), '"') && ReadChars(s, SkipBlank(s, i) + 1) == Some((key, e)) && e <= |s|
    requires SkipBlank(s, e) == c && At(s, c, ':') && m.key == CString.Cut(key)
    requires ReadValue(s, c + 1) == Some((m.value, b)) && SkipBlank(s, b) == j
    ensures At(s, j, '}') ==> ReadMembers(s, i) == Some(([m], j + 1))
    ensures At(s, j, ',') && ReadMembers(s, j + 1).Some? ==>
              ReadMembers(s, i) == Some(([m] + ReadMembers(s, j + 1).value.0, ReadMembers(s, j + 1).value.1))
  {
    hide SkipBlank, ReadValue, ReadChars, CString.Cut;
  }

  lemma {:induction false} MembersRead(s: string, i: nat, j: nat, ms: seq<Member>)
    requires ms != [] && MembersAt(s, i, j, ms) && At(s, j, '}')
    ensures i <= |s| && ReadMembers(s, i) == Some((ms, j + 1)) && !At(s, SkipBlank(s, i), '}')
    decreases j - i, 3
  {
    hide SkipBlank, ReadValue, MemberAt, ReadChars, ReadMembers;
    if |ms| == 1 {
      var c, key, e, b := MemberRead(s, i, j, ms[0]);
      MembersMade(s, i, c, key, e, b, j, ms[0]);
      assert [ms[0]] == ms;
    } else {
      var d: nat :| i <= d < j && At(s, d, ',') && MemberAt(s, i, d, ms[0]) && MembersAt(s, d + 1, j, ms[1..]);
      var c, key, e, b := MemberRead(s, i, d, ms[0]);
      MembersRead(s, d + 1, j, ms[1..]);
      MembersMade(s, i, c, key, e, b, d, ms[0]);
      assert [ms[0]] + ms[1..] == ms;
    }
  }

  // ---------------------------------------------------------------------------------
  // What is read was spelled.

  lemma {:induction false} ValueFound(s: string, i: nat)
    requires i <= |s| && ReadValue(s, i).Some?
    ensures ValueAt(s, SkipBlank(s, i), ReadValue(s, i).value.1, ReadValue(s, i).value.0)
    decreases |s| - i, 0
  {
    hide SkipBlank, ReadChars, ReadNumber, ReadItems, ReadMembers, CharsAt, NumberAt, ValueAt;
    var a := SkipBlank(s, i);
    var v := ReadValue(s, i).value.0;
    if v.List? {
      ListStarts(s, i);
      if !At(s, SkipBlank(s, a + 1), ']') {
        ItemsSkip(s, a + 1);
        ItemsFound(s, a + 1);
      }
      ListFound(s, i);
    } else if v.Object? {
      ObjectStarts(s, i);
      if !At(s, SkipBlank(s, a + 1), '}') {
        MembersSkip(s, a + 1);
        MembersFound(s, a + 1);
      }
      ObjectFound(s, i);
    } else {
      ScalarFound(s, i);
    }
  }

  lemma ScalarFound(s: string, i: nat)
    requires i <= |s| && ReadValue(s, i).Some? && !ReadValue(s, i).value.0.List? && !ReadValue(s, i).value.0.Object?
    ensures ValueAt(s, SkipBlank(s, i), ReadValue(s, i).value.1, ReadValue(s, i).value.0)
  {
    hide SkipBlank, ReadChars, ReadNumber, ReadItems, ReadMembers, CharsAt, ItemsAt, MembersAt, NumberAt;
    var a := SkipBlank(s, i);
    var (v, b) := ReadValue(s, i).value;
    match v
    case Number(_) => NumberFound(s, a);
    case Str(x) => CharsMeans(s, a + 1, b - 1, x);
    case _ =>
  }

  lemma ListStarts(s: string, i: nat)
    requires i <= |s| && ReadValue(s, i).Some? && ReadValue(s, i).value.0.List?
    ensures var a := SkipBlank(s, i);
            && At(s, a, '[')
            && var (v, b) := ReadValue(s, i).value;
               if At(s, SkipBlank(s, a + 1), ']') then v == List([]) && b == SkipBlank(s, a + 1) + 1
               else ReadItems(s, SkipBlank(s, a + 1)) == Some((v.items, b))
  {
    hide SkipBlank, ReadChars, ReadNumber, ReadItems, ReadMembers, Literal, IsDigit;
  }

  lemma ObjectStarts(s: string, i: nat)
    requires i <= |s| && ReadValue(s, i).Some? && ReadValue(s, i).value.0.Object?
    ensures var a := SkipBlank(s, i);
            && At(s, a, '{')
            && var (v, b) := ReadValue(s, i).value;
               if At(s, SkipBlank(s, a + 1), '}') then v == Object([]) && b == SkipBlank(s, a + 1) + 1
               else ReadMembers(s, SkipBlank(s, a + 1)) == Some((v.members, b))
  {
    hide SkipBlank, ReadChars, ReadNumber, ReadItems, ReadMembers, Literal, IsDigit;
  }

  lemma ListFound(s: string, i: nat)
    requires i <= |s| && ReadValue(s, i).Some? && ReadValue(s, i).value.0.List?
    requires var a := SkipBlank(s, i);
             a < |s| && !At(s, SkipBlank(s, a + 1), ']') && ReadItems(s, a + 1).Some? ==>
               var (items, e) := ReadItems(s, a + 1).value;
               items != [] && e > a + 1 && At(s, e - 1, ']') && ItemsAt(s, a + 1, e - 1, items)
    ensures ValueAt(s, SkipBlank(s, i), ReadValue(s, i).value.1, ReadValue(s, i).value.0)
  {
    hide SkipBlank, ReadValue, ReadItems, ItemsAt;
    ListStarts(s, i);
    var a := SkipBlank(s, i);
    ItemsSkip(s, a + 1);
    SkipMeans(s, a + 1, a + 1);
  }

  lemma ObjectFound(s: string, i: nat)
    requires i <= |s| && ReadValue(s, i).Some? && ReadValue(s, i).value.0.Object?
    requires var a := SkipBlank(s, i);
             a < |s| && !At(s, SkipBlank(s, a + 1), '}') && ReadMembers(s, a + 1).Some? ==>
               var (ms, e) := ReadMembers(s, a + 1).value;
               ms != [] && e > a + 1 && At(s, e - 1, '}') && MembersAt(s, a + 1, e - 1, ms)
    ensures ValueAt(s, SkipBlank(s, i), ReadValue(s, i).value.1, ReadValue(s, i).value.0)
  {
    hide SkipBlank, ReadValue, ReadMembers, MembersAt;
    ObjectStarts(s, i);
    var a := SkipBlank(s, i);
    MembersSkip(s, a + 1);
    SkipMeans(s, a + 1, a + 1);
  }

  lemma {:induction false} PaddedFound(s: string, i: nat)
    requires i <= |s| && ReadValue(s, i).Some?
    ensures PaddedAt(s, i, SkipBlank(s, ReadValue(s, i).value.1), ReadValue(s, i).value.0)
    decreases |s| - i, 1
  {
    hide SkipBlank, ReadValue, ValueAt;
    var (v, b) := ReadValue(s, i).value;
    ValueFound(s, i);
    var a, j := SkipBlank(s, i), SkipBlank(s, b);
    SkipMeans(s, i, a);
    SkipMeans(s, b, j);
    ValueStarts(s, a, b, v);
    assert Gap(s, i, a) && Gap(s, b, j);
  }

  lemma {:induction false} ItemsFound(s: string, i: nat)
    requires i <= |s| && ReadItems(s, i).Some?
    ensures var (items, e) := ReadItems(s, i).value;
            items != [] && e > i && At(s, e - 1, ']') && ItemsAt(s, i, e - 1, items)
    decreases |s| - i, 2
  {
    hide SkipBlank, ReadValue, PaddedAt;
    var (v, b) := ReadValue(s, i).value;
    PaddedFound(s, i);
    var k := SkipBlank(s, b);
    if At(s, k, ',') {
      ItemsFound(s, k + 1);
      var (rest, e) := ReadItems(s, k + 1).value;
      assert ([v] + rest)[1..] == rest;
      assert i <= k < e - 1 by { ItemsEnd(s, k + 1); }
    }
  }

  lemma ItemsEnd(s: string, i: nat)
    requires i <= |s| && ReadItems(s, i).Some?
    ensures ReadItems(s, i).value.1 > i
  {
  }

  /** One member, and where the parser goes on after it. */
  lemma {:induction false} MemberFound(s: string, i: nat) returns (k: nat, m: Member)
    requires i <= |s| && ReadMembers(s, i).Some?
    ensures i < k < |s| && MemberAt(s, i, k, m)
    ensures ReadMembers(s, i) ==
            if s[k] == ',' then MemberBefore(m, ReadMembers(s, k + 1)) else if s[k] == '}' then Some(([m], k + 1)) else None
    decreases |s| - i, 2
  {
    hide SkipBlank, ReadValue, PaddedAt, ReadChars, CharsAt, CString.Cut;
    var a := SkipBlank(s, i);
    SkipMeans(s, i, a);
    var (key, f) := ReadChars(s, a + 1).value;
    CharsMeans(s, a + 1, f - 1, key);
    var c := SkipBlank(s, f);
    SkipMeans(s, f, c);
    var (v, b) := ReadValue(s, c + 1).value;
    PaddedFound(s, c + 1);
    assert KeyAt(s, i, a, f, c, key);
    k, m := SkipBlank(s, b), Member(CString.Cut(key), v);
    CString.CutMeans(key, m.key);
  }

  function MemberBefore(m: Member, r: Option<(seq<Member>, nat)>): Option<(seq<Member>, nat)> {
    match r
    case None => None
    case Some(rest) => Some(([m] + rest.0, rest.1))
  }

  lemma {:induction false} MembersFound(s: string, i: nat)
    requires i <= |s| && ReadMembers(s, i).Some?
    ensures var (ms, e) := ReadMembers(s, i).value;
            ms != [] && e > i && At(s, e - 1, '}') && MembersAt(s, i, e - 1, ms)
    decreases |s| - i, 3
  {
    hide ReadMembers, MemberAt, MembersAt;
    var k, m := MemberFound(s, i);
    if s[k] == ',' {
      MembersFound(s, k + 1);
      var (rest, e) := ReadMembers(s, k + 1).value;
      MembersMore(s, i, k, e - 1, m, rest);
    } else {
      MembersOne(s, i, k, m);
    }
  }

  lemma MembersOne(s: string, i: nat, j: nat, m: Member)
    requires MemberAt(s, i, j, m)
    ensures MembersAt(s, i, j, [m])
  {
    hide KeyAt, PaddedAt;
  }

  lemma MembersMore(s: string, i: nat, k: nat, j: nat, m: Member, rest: seq<Member>)
    requires MemberAt(s, i, k, m) && At(s, k, ',') && i <= k < j && rest != [] && MembersAt(s, k + 1, j, rest)
    ensures MembersAt(s, i, j, [m] + rest)
  {
    hide KeyAt, PaddedAt;
    assert ([m] + rest)[1..] == rest;
  }

  /** The parser returns `v` on exactly the texts that spell it, and refuses every text that spells
      nothing. */
  lemma ParseMeans(t: string, v: Value)
    ensures Parse(t) == Some(v) <==> Spells(t, v)
  {
    hide ReadValue, SkipBlank, PaddedAt;
    if Parse(t) == Some(v) {
      PaddedFound(t, 0);
    }
    if Spells(t, v) {
      var b := PaddedRead(t, 0, |t|, v);
    }
  }

  /** What is printed spells the value. */
  lemma PrintedSpells(v: Value)
    requires Json.Plain(v)
    ensures Spells(Print(v), v)
  {
    hide Spells, Parse, Print;
    JsonBack.PrintedParses(v);
    ParseMeans(Print(v), v);
  }
}
