/** The parser, which moves an offset through the text, and the printer, which appends to a
    buffer. */
module JsonRun {
  import opened Wrappers
  import opened Json
  import CString
  import Utf8

  class Parser {
    const source: string
    var offset: nat

    constructor (source: string)
      ensures this.source == source && offset == 0
    {
      this.source := source;
      offset := 0;
    }

    ghost predicate Valid()
      reads this
    {
      offset <= |source|
    }

    method SkipWhitespace()
      requires Valid()
      modifies this
      ensures Valid() && offset == SkipBlank(source, old(offset))
    {
      while offset < |source|
        invariant Valid() && SkipBlank(source, old(offset)) == SkipBlank(source, offset)
      {
        if !IsBlank(source[offset]) {
          return;
        }
        offset := offset + 1;
      }
    }

    /** Four hexadecimal digits; the offset moves only when they are there. */
    method ParseHex4() returns (ok: bool, value: nat)
      requires Valid()
      modifies this
      ensures Valid()
      ensures var r := Hex4(source, old(offset));
              if ok then r == Some(value) && offset == old(offset) + 4 else r.None? && offset == old(offset)
    {
      hide HexDigit;
      value := 0;
      if offset + 4 > |source| {
        return false, 0;
      }
      var index := 0;
      while index < 4
        invariant 0 <= index <= 4 && offset == old(offset)
        invariant forall k :: offset <= k < offset + index ==> HexDigit(source[k]).Some?
        invariant value == Prefix(source, offset, index)
      {
        var d := HexDigit(source[offset + index]);
        if d.None? {
          return false, value;
        }
        value := value * 16 + d.value;
        index := index + 1;
      }
      offset := offset + 4;
      ok := true;
      FourDigits(source, old(offset));
    }

    /** The code point of the escape after a backslash. */
    method ParseEscape() returns (ok: bool, code: nat)
      requires Valid()
      modifies this
      ensures Valid()
      ensures var r := ReadEscape(source, old(offset));
              if ok then r == Some((code, offset)) else r.None?
    {
      hide Hex4;
      code := 0;
      if offset >= |source| {
        return false, 0;
      }
      var escape := source[offset];
      offset := offset + 1;
      match escape {
        case '"' => code := '"' as int;
        case '\\' => code := '\\' as int;
        case '/' => code := '/' as int;
        case 'b' => code := 8;
        case 'f' => code := 12;
        case 'n' => code := 10;
        case 'r' => code := 13;
        case 't' => code := 9;
        case 'u' =>
          ok, code := ParseHex4();
          if !ok {
            return;
          }
          if IsHigh(code) && At(source, offset, '\\') && At(source, offset + 1, 'u') {
            var saved := offset;
            offset := offset + 2;
            var low;
            ok, low := ParseHex4();
            if ok && IsLow(low) {
              code := 0x10000 + (code - 0xD800) * 1024 + (low - 0xDC00);
            } else {
              offset := saved;
            }
          }
        case _ => return false, 0;
      }
      ok := true;
    }

    /** A string literal, from its opening quote. */
    method ParseString() returns (ok: bool, text: string)
      requires Valid() && At(source, offset, '"')
      modifies this
      ensures Valid()
      ensures var r := ReadChars(source, old(offset) + 1);
              if ok then r == Some((text, offset)) else r.None?
    {
      hide ReadEscape, Utf8.Encode;
      offset := offset + 1;
      text := "";
      ghost var all := ReadChars(source, offset);
      BeforeNothing(all);
      while true
        invariant Valid() && all == Before(text, ReadChars(source, offset))
        decreases |source| - offset
      {
        if offset >= |source| {
          return false, text;
        }
        var c := source[offset];
        if c == '"' {
          offset := offset + 1;
          BeforeEnd(text, offset);
          return true, text;
        }
        ghost var start := offset;
        var bytes;
        if c == '\\' {
          offset := offset + 1;
          var code;
          ok, code := ParseEscape();
          if !ok {
            return;
          }
          bytes := Utf8.Encode(code);
        } else {
          bytes := [c];
          offset := offset + 1;
        }
        BeforeStep(text, bytes, ReadChars(source, offset));
        text := text + bytes;
      }
    }

    method SkipDigits()
      requires Valid()
      modifies this
      ensures Valid() && offset == DigitsEnd(source, old(offset))
    {
      while offset < |source| && IsDigit(source[offset])
        invariant Valid() && DigitsEnd(source, old(offset)) == DigitsEnd(source, offset)
      {
        offset := offset + 1;
      }
    }

    /** A number token, and what it is. */
    method ParseNumber() returns (ok: bool, n: Numeral)
      requires offset < |source|
      modifies this
      ensures Valid()
      ensures var r := ReadNumber(source, old(offset));
              if ok then r == Some((n, offset)) else r.None?
    {
      hide DigitsValue;
      n := Whole(0);
      var start := offset;
      if source[offset] == '-' {
        offset := offset + 1;
      }
      var from := offset;
      if offset >= |source| || !IsDigit(source[offset]) {
        return false, n;
      }
      SkipDigits();
      var to := offset;
      if source[from] == '0' && to - from > 1 {
        return false, n;
      }
      ok := SkipFraction();
      if !ok {
        return;
      }
      ok := SkipExponent();
      if !ok {
        return;
      }
      if offset - start >= TOKEN_LIMIT {
        return false, n;
      }
      n := NumberOf(source, start, from, to, offset);
    }

    method SkipFraction() returns (ok: bool)
      requires Valid()
      modifies this
      ensures Valid() && FractionEnd(source, old(offset)) == if ok then Some(offset) else None
    {
      if At(source, offset, '.') {
        offset := offset + 1;
        var digits := offset;
        SkipDigits();
        if offset == digits {
          return false;
        }
      }
      return true;
    }

    method SkipExponent() returns (ok: bool)
      requires Valid()
      modifies this
      ensures Valid() && ExponentEnd(source, old(offset)) == if ok then Some(offset) else None
    {
      if At(source, offset, 'e') || At(source, offset, 'E') {
        offset := offset + 1;
        if At(source, offset, '+') || At(source, offset, '-') {
          offset := offset + 1;
        }
        var digits := offset;
        SkipDigits();
        if offset == digits {
          return false;
        }
      }
      return true;
    }

    method MatchLiteral(word: string) returns (ok: bool)
      requires Valid()
      modifies this
      ensures Valid() && ok == Literal(source, old(offset), word)
      ensures offset == if ok then old(offset) + |word| else old(offset)
    {
      if offset + |word| > |source| {
        return false;
      }
      ok := source[offset..offset + |word|] == word;
      if ok {
        offset := offset + |word|;
      }
    }

    /** An array, from its opening bracket. */
    method ParseArray() returns (ok: bool, v: Value)
      requires Valid() && At(source, offset, '[') && SkipBlank(source, offset) == offset
      modifies this
      ensures Valid() && Came(ReadValue(source, old(offset)), ok, v, offset)
      decreases |source| - offset, 1
    {
      hide ReadValue, ReadItems, SkipBlank;
      v := Null;
      ghost var begin := offset;
      ReadList(source, offset);
      offset := offset + 1;
      SkipWhitespace();
      if At(source, offset, ']') {
        offset := offset + 1;
        return true, List([]);
      }
      var items := [];
      ghost var all := ReadItems(source, offset);
      AddedNone(all);
      while true
        invariant Valid() && begin < offset && all == Added(items, ReadItems(source, offset))
        decreases |source| - offset
      {
        var item;
        ItemsStep(source, offset);
        ok, item := ParseItem();
        if !ok {
          return false, Null;
        }
        SkipWhitespace();
        if At(source, offset, ',') {
          offset := offset + 1;
          AddedStep(items, item, ReadItems(source, offset));
          items := items + [item];
        } else if At(source, offset, ']') {
          offset := offset + 1;
          return true, List(items + [item]);
        } else {
          return false, Null;
        }
      }
    }

    method ParseItem() returns (ok: bool, v: Value)
      requires Valid()
      modifies this
      ensures Valid() && Came(ReadValue(source, old(offset)), ok, v, offset)
      decreases |source| - offset, 3
    {
      hide ReadValue, SkipBlank;
      BlankTwice(source, offset);
      SkipWhitespace();
      ok, v := ParseValue();
    }

    /** An object, from its opening brace. */
    method ParseObject() returns (ok: bool, v: Value)
      requires Valid() && At(source, offset, '{') && SkipBlank(source, offset) == offset
      modifies this
      ensures Valid() && Came(ReadValue(source, old(offset)), ok, v, offset)
      decreases |source| - offset, 1
    {
      hide ReadValue, ReadMembers, SkipBlank, MemberAt;
      v := Null;
      ghost var begin := offset;
      ReadObject(source, offset);
      offset := offset + 1;
      SkipWhitespace();
      if At(source, offset, '}') {
        offset := offset + 1;
        return true, Object([]);
      }
      var members := [];
      ghost var all := ReadMembers(source, offset);
      AddedNone(all);
      while true
        invariant Valid() && begin < offset && all == Added(members, ReadMembers(source, offset))
        decreases |source| - offset
      {
        var m;
        MembersStep(source, offset);
        ok, m := ParseMember();
        if !ok {
          return false, Null;
        }
        SkipWhitespace();
        if At(source, offset, ',') {
          offset := offset + 1;
          AddedStep(members, m, ReadMembers(source, offset));
          members := members + [m];
        } else if At(source, offset, '}') {
          offset := offset + 1;
          return true, Object(members + [m]);
        } else {
          return false, Null;
        }
      }
    }

    /** One key and its value. */
    method ParseMember() returns (ok: bool, m: Member)
      requires Valid()
      modifies this
      ensures Valid() && Came(MemberAt(source, old(offset)), ok, m, offset)
      decreases |source| - offset, 4
    {
      hide ReadValue, SkipBlank, ReadChars, CString.Cut;
      m := Member("", Null);
      SkipWhitespace();
      if !At(source, offset, '"') {
        return false, m;
      }
      var key, value;
      ok, key := ParseString();
      if !ok {
        return;
      }
      SkipWhitespace();
      if !At(source, offset, ':') {
        return false, m;
      }
      offset := offset + 1;
      ok, value := ParseItem();
      if !ok {
        return;
      }
      var cut := CString.CopyString(key);
      m := Member(cut, value);
    }

    method ParseValue() returns (ok: bool, v: Value)
      requires Valid()
      modifies this
      ensures Valid() && Came(ReadValue(source, old(offset)), ok, v, offset)
      decreases |source| - offset, 2
    {
      hide ReadItems, ReadMembers, ReadChars, ReadNumber, SkipBlank, Literal;
      v := Null;
      ghost var begin := offset;
      BlankOnce(source, offset);
      SkipWhitespace();
      if offset >= |source| {
        return false, Null;
      }
      ReadSame(source, begin);
      var c := source[offset];
      if c == '{' {
        ok, v := ParseObject();
      } else if c == '[' {
        ok, v := ParseArray();
      } else if c == '"' {
        var text;
        ok, text := ParseString();
        v := Str(text);
      } else if c == 't' {
        ok := MatchLiteral("true");
        v := Boolean(true);
      } else if c == 'f' {
        ok := MatchLiteral("false");
        v := Boolean(false);
      } else if c == 'n' {
        ok := MatchLiteral("null");
      } else if c == '-' || IsDigit(c) {
        var n;
        ok, n := ParseNumber();
        v := Number(n);
      } else {
        return false, Null;
      }
    }
  }

  /** Parses a whole text. */
  method ParseText(source: string) returns (v: Option<Value>)
    ensures v == Parse(source)
  {
    hide ReadValue;
    var parser := new Parser(source);
    var ok, value := parser.ParseValue();
    if !ok {
      return None;
    }
    parser.SkipWhitespace();
    return if parser.offset == |source| then Some(value) else None;
  }

  // ---------------------------------------------------------------------------------
  // What the loops have so far.

  ghost predicate Came<T>(r: Option<(T, nat)>, ok: bool, v: T, offset: nat) {
    if ok then r == Some((v, offset)) else r.None?
  }

  function HexValue(c: char): nat {
    if HexDigit(c).Some? then HexDigit(c).value else 0
  }

  /** The value of the first `n` digits at `i`. */
  function Prefix(s: string, i: nat, n: nat): nat
    requires i + n <= |s|
  {
    if n == 0 then 0 else Prefix(s, i, n - 1) * 16 + HexValue(s[i + n - 1])
  }

  lemma FourDigits(s: string, i: nat)
    requires i + 4 <= |s|
    ensures Prefix(s, i, 4) ==
            HexValue(s[i]) * 4096 + HexValue(s[i + 1]) * 256 + HexValue(s[i + 2]) * 16 + HexValue(s[i + 3])
  {
    hide HexValue;
    assert Prefix(s, i, 1) == HexValue(s[i]);
    assert Prefix(s, i, 2) == HexValue(s[i]) * 16 + HexValue(s[i + 1]);
    assert Prefix(s, i, 3) == HexValue(s[i]) * 256 + HexValue(s[i + 1]) * 16 + HexValue(s[i + 2]);
  }

  lemma BeforeNothing(r: Option<(string, nat)>)
    ensures Before("", r) == r
  {
    if r.Some? {
      assert "" + r.value.0 == r.value.0;
    }
  }

  lemma BeforeEnd(text: string, i: nat)
    ensures Before(text, Some(("", i))) == Some((text, i))
  {
    assert text + "" == text;
  }

  lemma BeforeStep(text: string, bytes: string, r: Option<(string, nat)>)
    ensures Before(text, Before(bytes, r)) == Before(text + bytes, r)
  {
    if r.Some? {
      assert text + (bytes + r.value.0) == text + bytes + r.value.0;
    }
  }

  lemma {:induction false} BlankOnce(s: string, i: nat)
    requires i <= |s|
    ensures SkipBlank(s, SkipBlank(s, i)) == SkipBlank(s, i)
    decreases |s| - i
  {
    if i < |s| && IsBlank(s[i]) {
      BlankOnce(s, i + 1);
    }
  }

  /** Leading blanks make no difference to a value. */
  lemma ReadSame(s: string, i: nat)
    requires i <= |s| && SkipBlank(s, SkipBlank(s, i)) == SkipBlank(s, i)
    ensures ReadValue(s, i) == ReadValue(s, SkipBlank(s, i))
  {
    hide SkipBlank, ReadItems, ReadMembers, ReadChars, ReadNumber, Literal;
  }

  lemma BlankTwice(s: string, i: nat)
    requires i <= |s|
    ensures ReadValue(s, i) == ReadValue(s, SkipBlank(s, i))
  {
    hide SkipBlank, ReadValue;
    BlankOnce(s, i);
    ReadSame(s, i);
  }

  lemma ReadObject(s: string, i: nat)
    requires i <= |s| && SkipBlank(s, i) == i && At(s, i, '{')
    ensures var k := SkipBlank(s, i + 1);
            ReadValue(s, i) ==
            if At(s, k, '}') then Some((Object([]), k + 1))
            else
              var r := ReadMembers(s, k);
              if r.None? then None else Some((Object(r.value.0), r.value.1))
  {
    hide SkipBlank, ReadItems, ReadMembers, ReadChars, ReadNumber, Literal;
  }

  lemma ReadList(s: string, i: nat)
    requires i <= |s| && SkipBlank(s, i) == i && At(s, i, '[')
    ensures var k := SkipBlank(s, i + 1);
            ReadValue(s, i) ==
            if At(s, k, ']') then Some((List([]), k + 1))
            else
              var r := ReadItems(s, k);
              if r.None? then None else Some((List(r.value.0), r.value.1))
  {
    hide SkipBlank, ReadItems, ReadMembers, ReadChars, ReadNumber, Literal;
  }

  lemma ItemsStep(s: string, i: nat)
    requires i <= |s|
    ensures var v := ReadValue(s, i);
            ReadItems(s, i) ==
            if v.None? then None
            else
              var k := SkipBlank(s, v.value.1);
              if At(s, k, ',') then
                match ReadItems(s, k + 1)
                case None => None
                case Some(r) => Some(([v.value.0] + r.0, r.1))
              else if At(s, k, ']') then Some(([v.value.0], k + 1))
              else None
  {
    hide SkipBlank, ReadValue;
  }

  /** The member at `i`. */
  ghost function MemberAt(s: string, i: nat): (r: Option<(Member, nat)>)
    requires i <= |s|
    ensures r.Some? ==> i < r.value.1 <= |s|
  {
    var j := SkipBlank(s, i);
    if !At(s, j, '"') then None
    else match ReadChars(s, j + 1)
      case None => None
      case Some(key) =>
        var c := SkipBlank(s, key.1);
        if !At(s, c, ':') then None
        else match ReadValue(s, c + 1)
          case None => None
          case Some(v) => Some((Member(CString.Cut(key.0), v.0), v.1))
  }

  lemma MembersStep(s: string, i: nat)
    requires i <= |s|
    ensures var m := MemberAt(s, i);
            ReadMembers(s, i) ==
            if m.None? then None
            else
              var k := SkipBlank(s, m.value.1);
              if At(s, k, ',') then
                match ReadMembers(s, k + 1)
                case None => None
                case Some(r) => Some(([m.value.0] + r.0, r.1))
              else if At(s, k, '}') then Some(([m.value.0], k + 1))
              else None
  {
    hide SkipBlank, ReadValue, ReadChars, CString.Cut;
  }

  // ---------------------------------------------------------------------------------
  // Printing.

  class Writer {
    var chars: string

    constructor ()
      ensures chars == ""
    {
      chars := "";
    }

    method Append(s: string)
      modifies this
      ensures chars == old(chars) + s
    {
      chars := chars + s;
    }

    method AppendString(t: string)
      modifies this
      ensures chars == old(chars) + PrintString(t)
    {
      hide Escaped;
      Append("\"");
      var i := 0;
      assert t[0..] == t;
      while i < |t|
        invariant 0 <= i <= |t| && old(chars) + "\"" + EscapedAll(t) == chars + EscapedAll(t[i..])
      {
        assert t[i..][1..] == t[i + 1..];
        Append(Escaped(t[i]));
        i := i + 1;
      }
      assert t[i..] == "";
      Append("\"");
      assert old(chars) + "\"" + EscapedAll(t) + "\"" == old(chars) + ("\"" + EscapedAll(t) + "\"");
    }

    method AppendValue(v: Value)
      requires Plain(v)
      modifies this
      ensures chars == old(chars) + Print(v)
      decreases v, 0
    {
      hide PrintString, PrintItems, PrintMembers, PrintInteger;
      match v
      case Null => Append("null");
      case Boolean(b) => Append(if b then "true" else "false");
      case Number(n) => Append(PrintInteger(n.value));
      case Str(t) => AppendString(t);
      case List(items) =>
        Append("[");
        AppendItems(items);
        Append("]");
      case Object(ms) =>
        Append("{");
        AppendMembers(ms);
        Append("}");
    }

    method AppendItems(items: seq<Value>)
      requires forall j :: 0 <= j < |items| ==> Plain(items[j])
      modifies this
      ensures chars == old(chars) + PrintItems(items)
      decreases items, 1
    {
      hide Print;
      var i := 0;
      assert items[0..] == items;
      while i < |items|
        invariant 0 <= i <= |items|
        invariant old(chars) + PrintItems(items) ==
                  chars + (if 0 < i < |items| then "," else "") + PrintItems(items[i..])
      {
        if i > 0 {
          Append(",");
        }
        assert items[i..][1..] == items[i + 1..];
        AppendValue(items[i]);
        i := i + 1;
      }
    }

    method AppendMembers(ms: seq<Member>)
      requires forall j :: 0 <= j < |ms| ==> '\0' !in ms[j].key && Plain(ms[j].value)
      modifies this
      ensures chars == old(chars) + PrintMembers(ms)
      decreases ms, 1
    {
      hide Print, PrintString, PrintMembers;
      var i := 0;
      assert ms[0..] == ms;
      NoMembers();
      while i < |ms|
        invariant 0 <= i <= |ms|
        invariant old(chars) + PrintMembers(ms) == chars + (if 0 < i < |ms| then "," else "") + PrintMembers(ms[i..])
      {
        if i > 0 {
          Append(",");
        }
        RestMembers(ms, i);
        AppendString(ms[i].key);
        Append(":");
        AppendValue(ms[i].value);
        assert i + 1 == |ms| ==> ms[i + 1..] == [];
        i := i + 1;
      }
      assert ms[i..] == [];
    }
  }

  lemma NoMembers()
    ensures PrintMembers([]) == ""
  {
  }

  lemma RestMembers(ms: seq<Member>, i: nat)
    requires i < |ms| && forall j :: 0 <= j < |ms| ==> '\0' !in ms[j].key && Plain(ms[j].value)
    ensures PrintMembers(ms[i..]) ==
            PrintString(ms[i].key) + ":" + Print(ms[i].value) +
            (if i + 1 == |ms| then "" else "," + PrintMembers(ms[i + 1..]))
  {
    hide Print, PrintString;
    assert ms[i..][1..] == ms[i + 1..];
  }

  /** The text of a value. */
  method Serialize(v: Value) returns (s: string)
    requires Plain(v)
    ensures s == Print(v)
  {
    hide Print;
    var w := new Writer();
    w.AppendValue(v);
    s := w.chars;
  }
}
