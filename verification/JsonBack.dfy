/** Parsing what was printed gives the value back; escapes mean their code points. */
module JsonBack {
  import opened Wrappers
  import opened Json
  import CString
  import Utf8

  lemma LiteralSplit(s: string, i: nat, a: string, b: string)
    requires Literal(s, i, a + b)
    ensures Literal(s, i, a) && Literal(s, i + |a|, b)
  {
    var t := s[i..i + |a + b|];
    assert s[i..i + |a|] == t[..|a|];
    assert s[i + |a|..i + |a| + |b|] == t[|a|..];
  }

  lemma LiteralAt(s: string, i: nat, a: string, k: nat)
    requires Literal(s, i, a) && k < |a|
    ensures s[i + k] == a[k]
  {
    assert s[i + k] == s[i..i + |a|][k];
  }

  // ---------------------------------------------------------------------------------
  // Strings.

  lemma {:induction false} HexBack(n: nat)
    requires n < 16
    ensures HexDigit(HexChar(n)) == Some(n)
  {
  }

  /** The four digits of a number below 65536. */
  function Hex(n: nat): (h: string)
    requires n < 0x10000
    ensures |h| == 4
  {
    [HexChar(n / 4096), HexChar(n / 256 % 16), HexChar(n / 16 % 16), HexChar(n % 16)]
  }

  lemma Places(n: nat)
    requires n < 0x10000
    ensures n / 4096 * 4096 + n / 256 % 16 * 256 + n / 16 % 16 * 16 + n % 16 == n
  {
    var a, b, c, d := n / 4096, n / 256 % 16, n / 16 % 16, n % 16;
    assert n / 16 == n / 256 * 16 + c;
    assert n / 256 == a * 16 + b;
  }

  lemma {:induction false} Hex4Back(s: string, i: nat, n: nat)
    requires n < 0x10000 && Literal(s, i, Hex(n))
    ensures Hex4(s, i) == Some(n)
  {
    hide HexChar, HexDigit;
    HexBack(n / 4096);
    HexBack(n / 256 % 16);
    HexBack(n / 16 % 16);
    HexBack(n % 16);
    LiteralAt(s, i, Hex(n), 0);
    LiteralAt(s, i, Hex(n), 1);
    LiteralAt(s, i, Hex(n), 2);
    LiteralAt(s, i, Hex(n), 3);
    Places(n);
  }

  lemma SmallHex(c: char)
    requires c as int < 0x20
    ensures ['\\', 'u', '0', '0', HexChar(c as int / 16), HexChar(c as int % 16)] == "\\u" + Hex(c as int)
  {
  }

  /** One printed character reads as itself. */
  lemma EscapedBack(s: string, i: nat, c: char)
    requires Literal(s, i, Escaped(c))
    ensures ReadChars(s, i) == Before([c], ReadChars(s, i + |Escaped(c)|))
  {
    hide Hex4;
    var e := Escaped(c);
    LiteralAt(s, i, e, 0);
    if |e| == 2 {
      LiteralAt(s, i, e, 1);
      assert ReadEscape(s, i + 1) == Some((c as int, i + 2));
      assert Utf8.Encode(c as int) == [c];
    } else if |e| == 6 {
      var n := c as int;
      SmallHex(c);
      LiteralAt(s, i, e, 1);
      LiteralSplit(s, i, "\\u", Hex(n));
      Hex4Back(s, i + 2, n);
      assert ReadEscape(s, i + 1) == Some((n, i + 6));
      assert Utf8.Encode(n) == [c];
    }
  }

  lemma {:induction false} CharsBack(s: string, i: nat, t: string)
    requires Literal(s, i, EscapedAll(t) + "\"")
    ensures ReadChars(s, i) == Some((t, i + |EscapedAll(t)| + 1))
    decreases |t|
  {
    hide Escaped, ReadEscape;
    if t == "" {
      LiteralAt(s, i, "\"", 0);
    } else {
      hide ReadChars;
      var e, rest := Escaped(t[0]), EscapedAll(t[1..]) + "\"";
      assert EscapedAll(t) + "\"" == e + rest;
      LiteralSplit(s, i, e, rest);
      EscapedBack(s, i, t[0]);
      CharsBack(s, i + |e|, t[1..]);
      assert [t[0]] + t[1..] == t;
    }
  }

  lemma StringBack(s: string, i: nat, t: string)
    requires Literal(s, i, PrintString(t))
    ensures At(s, i, '"') && ReadChars(s, i + 1) == Some((t, i + |PrintString(t)|))
  {
    hide EscapedAll, ReadChars;
    assert PrintString(t) == "\"" + (EscapedAll(t) + "\"");
    LiteralAt(s, i, PrintString(t), 0);
    LiteralSplit(s, i, "\"", EscapedAll(t) + "\"");
    CharsBack(s, i + 1, t);
  }

  // ---------------------------------------------------------------------------------
  // Numbers.

  lemma {:induction false} DecimalValue(n: nat)
    ensures DigitsValue(Decimal(n)) == n
    ensures Decimal(n)[0] == '0' ==> |Decimal(n)| == 1
    ensures n > 0 ==> Decimal(n)[0] != '0'
  {
    var last := [(n % 10 + '0' as int) as char];
    if n < 10 {
      assert last[..0] == "";
    } else {
      DecimalValue(n / 10);
      assert Decimal(n)[..|Decimal(n)| - 1] == Decimal(n / 10);
      assert Decimal(n)[0] == Decimal(n / 10)[0];
    }
  }

  function Power(k: nat): nat {
    if k == 0 then 1 else 10 * Power(k - 1)
  }

  lemma {:induction false} DecimalLength(n: nat, k: nat)
    requires n < Power(k) && k > 0
    ensures |Decimal(n)| <= k
  {
    if n >= 10 {
      DecimalLength(n / 10, k - 1);
    }
  }

  lemma Sixteen()
    ensures EXACT <= Power(16)
  {
    assert Power(4) == 10000;
    assert Power(8) == 100000000;
    assert Power(12) == 1000000000000;
  }

  /** The text goes on with something that is no part of a number, if at all. */
  predicate Ended(s: string, i: nat) {
    i == |s| || (i < |s| && (s[i] == ',' || s[i] == ']' || s[i] == '}'))
  }

  lemma {:induction false} DigitsEndIs(s: string, i: nat, j: nat)
    requires i <= j <= |s| && (forall k :: i <= k < j ==> IsDigit(s[k])) && (j < |s| ==> !IsDigit(s[j]))
    ensures DigitsEnd(s, i) == j
    decreases j - i
  {
    if i < j {
      DigitsEndIs(s, i + 1, j);
    }
  }

  /** The digits of a number at `from`, with the end of the number after them. */
  lemma DigitsRead(s: string, from: nat, m: nat)
    requires Literal(s, from, Decimal(m)) && Ended(s, from + |Decimal(m)|)
    ensures var to := from + |Decimal(m)|;
            && from < to <= |s| && s[from..to] == Decimal(m) && IsDigit(s[from]) && (s[from] == '0' ==> to == from + 1)
            && DigitsEnd(s, from) == to && FractionEnd(s, to) == Some(to) && ExponentEnd(s, to) == Some(to)
  {
    hide Decimal, DigitsEnd;
    var d := Decimal(m);
    var to := from + |d|;
    DecimalValue(m);
    forall k | from <= k < to
      ensures s[k] == d[k - from]
    {
      LiteralAt(s, from, d, k - from);
    }
    DigitsEndIs(s, from, to);
  }

  lemma NumberBack(s: string, i: nat, n: int)
    requires -EXACT < n < EXACT && Literal(s, i, PrintInteger(n)) && Ended(s, i + |PrintInteger(n)|)
    ensures i < |s| && (s[i] == '-' || IsDigit(s[i]))
    ensures ReadNumber(s, i) == Some((Whole(n), i + |PrintInteger(n)|))
  {
    hide Decimal, DigitsEnd, DigitsValue, Literal, Ended, FractionEnd, ExponentEnd;
    var m := if n < 0 then 0 - n else n;
    if n < 0 {
      LiteralSplit(s, i, "-", Decimal(m));
      LiteralAt(s, i, "-", 0);
      LiteralFits(s, i, "-");
    }
    DigitsRead(s, if n < 0 then i + 1 else i, m);
    DecimalValue(m);
    Sixteen();
    DecimalLength(m, 16);
  }

  lemma LiteralFits(s: string, i: nat, a: string)
    requires Literal(s, i, a)
    ensures i + |a| <= |s|
  {
  }

  // ---------------------------------------------------------------------------------
  // Values.

  predicate Opens(c: char) {
    c == 'n' || c == 't' || c == 'f' || c == '-' || IsDigit(c) || c == '"' || c == '[' || c == '{'
  }

  lemma FirstChar(v: Value)
    requires Plain(v)
    ensures Print(v) != "" && Opens(Print(v)[0])
  {
    hide PrintItems, PrintMembers, EscapedAll, Decimal;
  }

  lemma NoBlank(s: string, i: nat)
    requires i <= |s| && (i < |s| ==> !IsBlank(s[i]))
    ensures SkipBlank(s, i) == i
  {
  }

  lemma {:induction false} ValueBack(s: string, i: nat, v: Value)
    requires Plain(v) && Literal(s, i, Print(v)) && Ended(s, i + |Print(v)|)
    ensures ReadValue(s, i) == Some((v, i + |Print(v)|))
    decreases v, 0
  {
    hide PrintItems, PrintMembers, ReadItems, ReadMembers, ReadChars, ReadNumber, PrintString, PrintInteger;
    FirstChar(v);
    LiteralAt(s, i, Print(v), 0);
    NoBlank(s, i);
    match v
    case Null =>
    case Boolean(_) =>
    case Number(n) =>
      NumberBack(s, i, n.value);
      NumberStart(s, i);
    case Str(t) =>
      StringBack(s, i, t);
    case List(items) =>
      ListBack(s, i, items);
    case Object(ms) =>
      ObjectBack(s, i, ms);
  }

  lemma NumberStart(s: string, i: nat)
    requires i < |s| && (s[i] == '-' || IsDigit(s[i]))
    ensures s[i] !in ['{', '[', '"', 't', 'f', 'n']
  {
  }

  lemma {:induction false} ListBack(s: string, i: nat, items: seq<Value>)
    requires Plain(List(items)) && Literal(s, i, Print(List(items))) && SkipBlank(s, i) == i
    ensures ReadValue(s, i) == Some((List(items), i + |Print(List(items))|))
    decreases items, 1
  {
    hide PrintItems, PrintMembers, ReadItems, ReadMembers, ReadChars, ReadNumber;
    var inner := PrintItems(items) + "]";
    assert Print(List(items)) == "[" + inner;
    LiteralAt(s, i, Print(List(items)), 0);
    LiteralSplit(s, i, "[", inner);
    if items == [] {
      EmptyItems();
      LiteralAt(s, i + 1, inner, 0);
      NoBlank(s, i + 1);
    } else {
      ItemsStart(items);
      FirstChar(items[0]);
      LiteralAt(s, i + 1, inner, 0);
      NoBlank(s, i + 1);
      ItemsBack(s, i + 1, items);
    }
  }

  lemma EmptyItems()
    ensures PrintItems([]) == ""
  {
  }

  lemma ItemsStart(items: seq<Value>)
    requires items != [] && forall j :: 0 <= j < |items| ==> Plain(items[j])
    ensures Print(items[0]) <= PrintItems(items)
  {
  }

  lemma {:induction false} ItemsBack(s: string, i: nat, items: seq<Value>)
    requires items != [] && (forall j :: 0 <= j < |items| ==> Plain(items[j]))
    requires Literal(s, i, PrintItems(items) + "]")
    ensures ReadItems(s, i) == Some((items, i + |PrintItems(items)| + 1))
    decreases items, 0
  {
    hide ReadValue, Print, ReadItems, PrintItems;
    var first := Print(items[0]);
    PrintItemsStep(items);
    if |items| == 1 {
      LiteralSplit(s, i, first, "]");
      LiteralAt(s, i + |first|, "]", 0);
      ValueBack(s, i, items[0]);
      NoBlank(s, i + |first|);
      LastItem(s, i, items[0], i + |first|);
      assert [items[0]] == items;
    } else {
      Regroup(first, PrintItems(items[1..]));
      Between(s, i, first, PrintItems(items[1..]) + "]");
      ValueBack(s, i, items[0]);
      ItemsBack(s, i + |first| + 1, items[1..]);
      MoreItems(s, i, items, i + |first|, i + |PrintItems(items)| + 1);
    }
  }

  /** An item, a comma and the rest. */
  lemma Between(s: string, i: nat, first: string, rest: string)
    requires Literal(s, i, first + ("," + rest))
    ensures Literal(s, i, first) && At(s, i + |first|, ',') && Literal(s, i + |first| + 1, rest)
    ensures Ended(s, i + |first|) && SkipBlank(s, i + |first|) == i + |first|
  {
    LiteralSplit(s, i, first, "," + rest);
    LiteralSplit(s, i + |first|, ",", rest);
    LiteralAt(s, i + |first|, ",", 0);
    NoBlank(s, i + |first|);
  }

  lemma Regroup(first: string, more: string)
    ensures first + ("," + more) + "]" == first + ("," + (more + "]"))
  {
  }

  lemma PrintItemsStep(items: seq<Value>)
    requires items != [] && (forall j :: 0 <= j < |items| ==> Plain(items[j]))
    ensures PrintItems(items) == Print(items[0]) + if |items| == 1 then "" else "," + PrintItems(items[1..])
    ensures |items| == 1 ==> PrintItems(items) == Print(items[0])
  {
    hide Print;
  }

  lemma LastItem(s: string, i: nat, v: Value, k: nat)
    requires i <= |s| && ReadValue(s, i) == Some((v, k)) && SkipBlank(s, k) == k && At(s, k, ']')
    ensures ReadItems(s, i) == Some(([v], k + 1))
  {
    hide ReadValue, SkipBlank;
  }

  lemma MoreItems(s: string, i: nat, items: seq<Value>, k: nat, end: nat)
    requires i <= |s| && items != [] && ReadValue(s, i) == Some((items[0], k)) && SkipBlank(s, k) == k && At(s, k, ',')
    requires ReadItems(s, k + 1) == Some((items[1..], end))
    ensures ReadItems(s, i) == Some((items, end))
  {
    hide ReadValue, SkipBlank;
    assert [items[0]] + items[1..] == items;
  }

  lemma {:induction false} ObjectBack(s: string, i: nat, ms: seq<Member>)
    requires Plain(Object(ms)) && Literal(s, i, Print(Object(ms))) && SkipBlank(s, i) == i
    ensures ReadValue(s, i) == Some((Object(ms), i + |Print(Object(ms))|))
    decreases ms, 1
  {
    hide PrintItems, PrintMembers, ReadItems, ReadMembers, ReadChars, ReadNumber;
    var inner := PrintMembers(ms) + "}";
    assert Print(Object(ms)) == "{" + inner;
    LiteralAt(s, i, Print(Object(ms)), 0);
    LiteralSplit(s, i, "{", inner);
    if ms == [] {
      EmptyMembers();
      LiteralAt(s, i + 1, inner, 0);
      NoBlank(s, i + 1);
    } else {
      MembersStart(ms);
      LiteralAt(s, i + 1, inner, 0);
      NoBlank(s, i + 1);
      MembersBack(s, i + 1, ms);
    }
  }

  lemma EmptyMembers()
    ensures PrintMembers([]) == ""
  {
  }

  lemma MembersStart(ms: seq<Member>)
    requires ms != [] && forall j :: 0 <= j < |ms| ==> '\0' !in ms[j].key && Plain(ms[j].value)
    ensures PrintMembers(ms) != "" && PrintMembers(ms)[0] == '"'
  {
    hide EscapedAll;
  }

  /** A member has been read at `i`: its key up to `c`, its value up to `k`. */
  ghost predicate MemberRead(s: string, i: nat, m: Member, c: nat, k: nat) {
    && i <= |s| && SkipBlank(s, i) == i && At(s, i, '"') && ReadChars(s, i + 1) == Some((m.key, c)) && CString.Cut(m.key) == m.key
    && c <= |s| && SkipBlank(s, c) == c && At(s, c, ':')
    && ReadValue(s, c + 1) == Some((m.value, k)) && k <= |s| && SkipBlank(s, k) == k
  }

  lemma MemberParts(s: string, i: nat, key: string, value: string, rest: string)
    requires Literal(s, i, key + ":" + value + rest) && rest != ""
    ensures var c := i + |key|;
            var e := c + 1 + |value|;
            && Literal(s, i, key) && At(s, c, ':') && Literal(s, c + 1, value) && Literal(s, e, rest)
            && e < |s| && s[e] == rest[0]
  {
    hide Literal;
    var c := i + |key|;
    assert key + ":" + value + rest == key + (":" + (value + rest));
    LiteralSplit(s, i, key, ":" + (value + rest));
    LiteralSplit(s, c, ":", value + rest);
    LiteralAt(s, c, ":", 0);
    LiteralSplit(s, c + 1, value, rest);
    LiteralAt(s, c + 1 + |value|, rest, 0);
  }

  /** A key and its value. */
  lemma {:induction false} MemberBack(s: string, i: nat, m: Member, rest: string)
    requires '\0' !in m.key && Plain(m.value) && Literal(s, i, PrintString(m.key) + ":" + Print(m.value) + rest)
    requires rest != "" && (rest[0] == ',' || rest[0] == '}')
    ensures var c := i + |PrintString(m.key)|;
            var e := c + 1 + |Print(m.value)|;
            MemberRead(s, i, m, c, e) && Literal(s, e, rest)
    decreases m, 2
  {
    hide ReadValue, Print, PrintString, ReadChars, Plain, Literal;
    var key, value := PrintString(m.key), Print(m.value);
    var c := i + |key|;
    MemberParts(s, i, key, value, rest);
    StringBack(s, i, m.key);
    NoBlank(s, i);
    NoBlank(s, c);
    NoBlank(s, c + 1 + |value|);
    CString.CutKeeps(m.key);
    ValueBack(s, c + 1, m.value);
  }

  lemma {:induction false} MembersBack(s: string, i: nat, ms: seq<Member>)
    requires ms != [] && (forall j :: 0 <= j < |ms| ==> '\0' !in ms[j].key && Plain(ms[j].value))
    requires Literal(s, i, PrintMembers(ms) + "}")
    ensures ReadMembers(s, i) == Some((ms, i + |PrintMembers(ms)| + 1))
    decreases ms, 0
  {
    hide ReadValue, Print, PrintString, PrintMembers, ReadMembers, MemberRead, Literal;
    var m := ms[0];
    var head := PrintString(m.key) + ":" + Print(m.value);
    PrintMembersStep(ms);
    if |ms| == 1 {
      MemberBack(s, i, m, "}");
      LiteralAt(s, i + |head|, "}", 0);
      LiteralFits(s, i + |head|, "}");
      LastMember(s, i, m, i + |PrintString(m.key)|, i + |head|);
      assert [m] == ms;
    } else {
      var rest := PrintMembers(ms[1..]) + "}";
      assert PrintMembers(ms) + "}" == head + ("," + rest);
      MemberBack(s, i, m, "," + rest);
      LiteralSplit(s, i + |head|, ",", rest);
      LiteralAt(s, i + |head|, ",", 0);
      MembersBack(s, i + |head| + 1, ms[1..]);
      MoreMembers(s, i, ms, i + |PrintString(m.key)|, i + |head|, i + |PrintMembers(ms)| + 1);
    }
  }

  lemma PrintMembersStep(ms: seq<Member>)
    requires ms != [] && (forall j :: 0 <= j < |ms| ==> '\0' !in ms[j].key && Plain(ms[j].value))
    ensures var head := PrintString(ms[0].key) + ":" + Print(ms[0].value);
            && PrintMembers(ms) == head + (if |ms| == 1 then "" else "," + PrintMembers(ms[1..]))
            && (|ms| == 1 ==> PrintMembers(ms) == head)
  {
    hide Print, PrintString;
  }

  lemma LastMember(s: string, i: nat, m: Member, c: nat, k: nat)
    requires MemberRead(s, i, m, c, k) && At(s, k, '}')
    ensures ReadMembers(s, i) == Some(([m], k + 1))
  {
    hide ReadValue, SkipBlank, ReadChars, CString.Cut;
  }

  lemma MoreMembers(s: string, i: nat, ms: seq<Member>, c: nat, k: nat, end: nat)
    requires ms != [] && MemberRead(s, i, ms[0], c, k) && At(s, k, ',')
    requires ReadMembers(s, k + 1) == Some((ms[1..], end))
    ensures ReadMembers(s, i) == Some((ms, end))
  {
    hide ReadValue, SkipBlank, ReadChars, CString.Cut;
    assert [ms[0]] + ms[1..] == ms;
  }

  /** Parsing a printed value gives it back, and all of the text is used. */
  lemma PrintedParses(v: Value)
    requires Plain(v)
    ensures Parse(Print(v)) == Some(v)
  {
    hide Print, ReadValue;
    var s := Print(v);
    assert s[0..|s|] == s;
    ValueBack(s, 0, v);
    NoBlank(s, |s|);
  }

  // ---------------------------------------------------------------------------------
  // Escapes.

  /** A code point as section 7 of RFC 8259 escapes it: one escape, or a surrogate pair. */
  function Escape(u: nat): string
    requires u <= Utf8.MAX_CODE_POINT
  {
    if u < 0x10000 then "\\u" + Hex(u)
    else "\\u" + Hex(0xD800 + (u - 0x10000) / 1024) + ("\\u" + Hex(0xDC00 + (u - 0x10000) % 1024))
  }

  function EscapeAll(us: seq<nat>): string
    requires forall k :: 0 <= k < |us| ==> Utf8.IsScalar(us[k])
  {
    if us == [] then ""
    else
      assert Utf8.IsScalar(us[0]);
      Escape(us[0]) + EscapeAll(us[1..])
  }

  lemma UnicodeEscape(s: string, i: nat, u: nat)
    requires u < 0x10000 && Literal(s, i, "\\u" + Hex(u))
    ensures At(s, i, '\\') && At(s, i + 1, 'u') && Hex4(s, i + 2) == Some(u)
  {
    hide Hex4, Hex;
    var t := "\\u" + Hex(u);
    LiteralAt(s, i, t, 0);
    LiteralAt(s, i, t, 1);
    LiteralSplit(s, i, "\\u", Hex(u));
    Hex4Back(s, i + 2, u);
  }

  /** One escape that is not the first half of a pair. */
  lemma SingleBack(s: string, i: nat, u: nat)
    requires u < 0x10000 && !IsHigh(u) && Literal(s, i, "\\u" + Hex(u))
    ensures At(s, i, '\\') && ReadEscape(s, i + 1) == Some((u, i + 6))
  {
    hide Hex4, Hex, Literal;
    UnicodeEscape(s, i, u);
  }

  /** Two escapes that are the halves of a pair. */
  lemma PairBack(s: string, i: nat, high: nat, low: nat)
    requires IsHigh(high) && IsLow(low) && Literal(s, i, "\\u" + Hex(high)) && Literal(s, i + 6, "\\u" + Hex(low))
    ensures At(s, i, '\\')
    ensures ReadEscape(s, i + 1) == Some((0x10000 + (high - 0xD800) * 1024 + (low - 0xDC00), i + 12))
  {
    hide Hex4, Hex, Literal;
    UnicodeEscape(s, i, high);
    UnicodeEscape(s, i + 6, low);
  }

  lemma EscapeBack(s: string, i: nat, u: nat)
    requires Utf8.IsScalar(u) && Literal(s, i, Escape(u))
    ensures At(s, i, '\\') && ReadEscape(s, i + 1) == Some((u, i + |Escape(u)|))
  {
    hide Hex4, Hex, Literal, ReadEscape, At;
    if u < 0x10000 {
      SingleBack(s, i, u);
    } else {
      var w := u - 0x10000;
      var high, low := 0xD800 + w / 1024, 0xDC00 + w % 1024;
      LiteralSplit(s, i, "\\u" + Hex(high), "\\u" + Hex(low));
      PairBack(s, i, high, low);
    }
  }

  /** A string literal of escapes reads as the UTF-8 of their code points, surrogate pairs as the
      one code point they stand for. */
  lemma {:induction false} EscapesRead(s: string, i: nat, us: seq<nat>)
    requires forall k :: 0 <= k < |us| ==> Utf8.IsScalar(us[k])
    requires Literal(s, i, EscapeAll(us) + "\"")
    ensures ReadChars(s, i) == Some((Utf8.EncodeAll(us), i + |EscapeAll(us)| + 1))
    decreases |us|
  {
    hide Escape, ReadEscape, Utf8.Encode;
    if us == [] {
      LiteralAt(s, i, "\"", 0);
    } else {
      var e, rest := Escape(us[0]), EscapeAll(us[1..]) + "\"";
      assert EscapeAll(us) + "\"" == e + rest;
      LiteralSplit(s, i, e, rest);
      EscapeBack(s, i, us[0]);
      EscapesRead(s, i + |e|, us[1..]);
    }
  }
}
