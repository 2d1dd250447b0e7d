/** JSON texts: what the parser makes of them, and what the printer writes. Texts are strings of
    bytes, written as characters below 256. */
module Json {
  import opened Wrappers
  import CString
  import Utf8

  /** A number: an integer that a double holds exactly, or what `strtod` makes of a token. */
  datatype Numeral = Whole(value: int) | Other(token: string)

  datatype Value =
    | Null
    | Boolean(holds: bool)
    | Number(number: Numeral)
    | Str(text: string)
    | List(items: seq<Value>)
    | Object(members: seq<Member>)

  datatype Member = Member(key: string, value: Value)

  const EXACT := 9007199254740992
  const TOKEN_LIMIT := 64

  // ---------------------------------------------------------------------------------
  // Strings.

  predicate IsBlank(c: char) {
    c == ' ' || c == '\t' || c == '\n' || c == '\r'
  }

  function SkipBlank(s: string, i: nat): (j: nat)
    requires i <= |s|
    ensures i <= j <= |s|
    decreases |s| - i
  {
    if i < |s| && IsBlank(s[i]) then SkipBlank(s, i + 1) else i
  }

  predicate At(s: string, i: nat, c: char) {
    i < |s| && s[i] == c
  }

  function HexDigit(c: char): Option<nat> {
    if '0' <= c <= '9' then Some(c as int - '0' as int)
    else if 'a' <= c <= 'f' then Some(c as int - 'a' as int + 10)
    else if 'A' <= c <= 'F' then Some(c as int - 'A' as int + 10)
    else None
  }

  /** Four hexadecimal digits at `i`. */
  function Hex4(s: string, i: nat): (r: Option<nat>)
    ensures r.Some? ==> i + 4 <= |s| && r.value < 0x10000
  {
    if i + 4 > |s| then None
    else
      var a, b, c, d := HexDigit(s[i]), HexDigit(s[i + 1]), HexDigit(s[i + 2]), HexDigit(s[i + 3]);
      if a.Some? && b.Some? && c.Some? && d.Some? then
        Some(a.value * 4096 + b.value * 256 + c.value * 16 + d.value)
      else None
  }

  predicate IsHigh(u: nat) {
    0xD800 <= u <= 0xDBFF
  }

  predicate IsLow(u: nat) {
    0xDC00 <= u <= 0xDFFF
  }

  /** The code point of an escape, the character after the backslash at `i`, and where it ends.
      A high surrogate takes a low one that follows it along. */
  function ReadEscape(s: string, i: nat): (r: Option<(nat, nat)>)
    ensures r.Some? ==> r.value.0 <= Utf8.MAX_CODE_POINT && i < r.value.1 <= |s|
  {
    if i >= |s| then None
    else match s[i]
      case '"' => Some(('"' as int, i + 1))
      case '\\' => Some(('\\' as int, i + 1))
      case '/' => Some(('/' as int, i + 1))
      case 'b' => Some((8, i + 1))
      case 'f' => Some((12, i + 1))
      case 'n' => Some((10, i + 1))
      case 'r' => Some((13, i + 1))
      case 't' => Some((9, i + 1))
      case 'u' =>
        (match Hex4(s, i + 1)
         case None => None
         case Some(u) =>
           if IsHigh(u) && At(s, i + 5, '\\') && At(s, i + 6, 'u') then
             match Hex4(s, i + 7)
             case Some(v) =>
               if IsLow(v) then Some((0x10000 + (u - 0xD800) * 1024 + (v - 0xDC00), i + 11)) else Some((u, i + 5))
             case None => Some((u, i + 5))
           else Some((u, i + 5)))
      case _ => None
  }

  /** The rest of a string literal from `i` on, and where it ends. */
  function ReadChars(s: string, i: nat): (r: Option<(string, nat)>)
    ensures r.Some? ==> i < r.value.1 <= |s|
    decreases |s| - i
  {
    if i >= |s| then None
    else if s[i] == '"' then Some(("", i + 1))
    else if s[i] == '\\' then
      match ReadEscape(s, i + 1)
      case None => None
      case Some(e) => Before(Utf8.Encode(e.0), ReadChars(s, e.1))
    else Before([s[i]], ReadChars(s, i + 1))
  }

  function Before(head: string, r: Option<(string, nat)>): Option<(string, nat)> {
    match r
    case None => None
    case Some(rest) => Some((head + rest.0, rest.1))
  }

  // ---------------------------------------------------------------------------------
  // Numbers.

  predicate IsDigit(c: char) {
    '0' <= c <= '9'
  }

  function DigitsEnd(s: string, i: nat): (j: nat)
    requires i <= |s|
    ensures i <= j <= |s| && forall k :: i <= k < j ==> IsDigit(s[k])
    ensures j < |s| ==> !IsDigit(s[j])
    decreases |s| - i
  {
    if i < |s| && IsDigit(s[i]) then DigitsEnd(s, i + 1) else i
  }

  /** Past a fraction, if there is one; nothing when it has no digits. */
  function FractionEnd(s: string, i: nat): (r: Option<nat>)
    requires i <= |s|
    ensures r.Some? ==> i <= r.value <= |s|
  {
    if !At(s, i, '.') then Some(i)
    else
      var j := DigitsEnd(s, i + 1);
      if j == i + 1 then None else Some(j)
  }

  function ExponentEnd(s: string, i: nat): (r: Option<nat>)
    requires i <= |s|
    ensures r.Some? ==> i <= r.value <= |s|
  {
    if !At(s, i, 'e') && !At(s, i, 'E') then Some(i)
    else
      var k := if At(s, i + 1, '+') || At(s, i + 1, '-') then i + 2 else i + 1;
      var j := DigitsEnd(s, k);
      if j == k then None else Some(j)
  }

  function DigitsValue(s: string): nat
    requires forall k :: 0 <= k < |s| ==> IsDigit(s[k])
  {
    if s == "" then 0 else DigitsValue(s[..|s| - 1]) * 10 + Digit(s[|s| - 1])
  }

  function Digit(c: char): (n: nat)
    requires IsDigit(c)
    ensures n < 10
  {
    c as int - '0' as int
  }

  /** The number whose token is `s[i..end]`, its digits before any fraction at `from` to `to`. */
  function NumberOf(s: string, i: nat, from: nat, to: nat, end: nat): Numeral
    requires i <= from <= to <= end <= |s| && forall k :: from <= k < to ==> IsDigit(s[k])
  {
    var n := DigitsValue(s[from..to]);
    if to == end && n < EXACT then Whole(if from > i then 0 - n else n) else Other(s[i..end])
  }

  function ReadNumber(s: string, i: nat): (r: Option<(Numeral, nat)>)
    requires i < |s|
    ensures r.Some? ==> i < r.value.1 <= |s|
  {
    var from := if s[i] == '-' then i + 1 else i;
    var to := DigitsEnd(s, from);
    if to == from || (s[from] == '0' && to - from > 1) then None
    else match FractionEnd(s, to)
      case None => None
      case Some(f) =>
        match ExponentEnd(s, f)
        case None => None
        case Some(end) =>
          if end - i >= TOKEN_LIMIT then None else Some((NumberOf(s, i, from, to, end), end))
  }

  // ---------------------------------------------------------------------------------
  // Values.

  predicate Literal(s: string, i: nat, word: string) {
    i + |word| <= |s| && s[i..i + |word|] == word
  }

  function ReadValue(s: string, i: nat): (r: Option<(Value, nat)>)
    requires i <= |s|
    ensures r.Some? ==> i < r.value.1 <= |s|
    decreases |s| - i, 0
  {
    var j := SkipBlank(s, i);
    if j == |s| then None
    else if s[j] == '{' then
      var k := SkipBlank(s, j + 1);
      if At(s, k, '}') then Some((Object([]), k + 1))
      else match ReadMembers(s, k)
        case None => None
        case Some(r) => Some((Object(r.0), r.1))
    else if s[j] == '[' then
      var k := SkipBlank(s, j + 1);
      if At(s, k, ']') then Some((List([]), k + 1))
      else match ReadItems(s, k)
        case None => None
        case Some(r) => Some((List(r.0), r.1))
    else if s[j] == '"' then
      match ReadChars(s, j + 1)
      case None => None
      case Some(r) => Some((Str(r.0), r.1))
    else if s[j] == 't' then
      if Literal(s, j, "true") then Some((Boolean(true), j + 4)) else None
    else if s[j] == 'f' then
      if Literal(s, j, "false") then Some((Boolean(false), j + 5)) else None
    else if s[j] == 'n' then
      if Literal(s, j, "null") then Some((Null, j + 4)) else None
    else if s[j] == '-' || IsDigit(s[j]) then
      match ReadNumber(s, j)
      case None => None
      case Some(r) => Some((Number(r.0), r.1))
    else None
  }

  function ReadItems(s: string, i: nat): (r: Option<(seq<Value>, nat)>)
    requires i <= |s|
    ensures r.Some? ==> i < r.value.1 <= |s|
    decreases |s| - i, 1
  {
    match ReadValue(s, i)
    case None => None
    case Some(v) =>
      var k := SkipBlank(s, v.1);
      if At(s, k, ',') then
        match ReadItems(s, k + 1)
        case None => None
        case Some(r) => Some(([v.0] + r.0, r.1))
      else if At(s, k, ']') then Some(([v.0], k + 1))
      else None
  }

  /** The members of an object; a key is kept up to its first zero byte. */
  function ReadMembers(s: string, i: nat): (r: Option<(seq<Member>, nat)>)
    requires i <= |s|
    ensures r.Some? ==> i < r.value.1 <= |s|
    decreases |s| - i, 1
  {
    var j := SkipBlank(s, i);
    if !At(s, j, '"') then None
    else match ReadChars(s, j + 1)
      case None => None
      case Some(key) =>
        var c := SkipBlank(s, key.1);
        if !At(s, c, ':') then None
        else match ReadValue(s, c + 1)
          case None => None
          case Some(v) =>
            var k := SkipBlank(s, v.1);
            if At(s, k, ',') then
              match ReadMembers(s, k + 1)
              case None => None
              case Some(r) => Some(([Member(CString.Cut(key.0), v.0)] + r.0, r.1))
            else if At(s, k, '}') then Some(([Member(CString.Cut(key.0), v.0)], k + 1))
            else None
  }

  /** A whole text. */
  function Parse(s: string): Option<Value> {
    match ReadValue(s, 0)
    case None => None
    case Some(v) => if SkipBlank(s, v.1) == |s| then Some(v.0) else None
  }

  // ---------------------------------------------------------------------------------
  // Printing.

  function HexChar(n: nat): char
    requires n < 16
  {
    if n < 10 then (n + '0' as int) as char else (n - 10 + 'a' as int) as char
  }

  function Escaped(c: char): string {
    match c
    case '"' => "\\\""
    case '\\' => "\\\\"
    case _ =>
      var n := c as int;
      if n == 8 then "\\b" else if n == 12 then "\\f" else if n == 10 then "\\n" else if n == 13 then "\\r"
      else if n == 9 then "\\t"
      else if n < 0x20 then ['\\', 'u', '0', '0', HexChar(n / 16), HexChar(n % 16)]
      else [c]
  }

  function EscapedAll(t: string): string {
    if t == "" then "" else Escaped(t[0]) + EscapedAll(t[1..])
  }

  function PrintString(t: string): string {
    "\"" + EscapedAll(t) + "\""
  }

  function Decimal(n: nat): (s: string)
    ensures s != "" && forall k :: 0 <= k < |s| ==> IsDigit(s[k])
  {
    var last := [(n % 10 + '0' as int) as char];
    if n < 10 then last else Decimal(n / 10) + last
  }

  function PrintInteger(n: int): string {
    if n < 0 then "-" + Decimal(0 - n) else Decimal(n)
  }

  /** Every number in it is an integer a double holds exactly. */
  predicate Plain(v: Value) {
    match v
    case Null | Boolean(_) | Str(_) => true
    case Number(n) => n.Whole? && -EXACT < n.value < EXACT
    case List(items) => forall i :: 0 <= i < |items| ==> Plain(items[i])
    case Object(ms) => forall i :: 0 <= i < |ms| ==> '\0' !in ms[i].key && Plain(ms[i].value)
  }

  function Print(v: Value): string
    requires Plain(v)
    decreases v, 0
  {
    match v
    case Null => "null"
    case Boolean(b) => if b then "true" else "false"
    case Number(n) => PrintInteger(n.value)
    case Str(t) => PrintString(t)
    case List(items) => "[" + PrintItems(items) + "]"
    case Object(ms) => "{" + PrintMembers(ms) + "}"
  }

  function PrintItems(items: seq<Value>): string
    requires forall i :: 0 <= i < |items| ==> Plain(items[i])
    decreases items, 1
  {
    if items == [] then ""
    else Print(items[0]) + (if |items| == 1 then "" else "," + PrintItems(items[1..]))
  }

  function PrintMembers(ms: seq<Member>): string
    requires forall i :: 0 <= i < |ms| ==> '\0' !in ms[i].key && Plain(ms[i].value)
    decreases ms, 1
  {
    if ms == [] then ""
    else PrintString(ms[0].key) + ":" + Print(ms[0].value) + (if |ms| == 1 then "" else "," + PrintMembers(ms[1..]))
  }
}
