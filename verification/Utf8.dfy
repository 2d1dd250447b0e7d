/** Code points as UTF-8. Bytes are characters below 256. */
module Utf8 {
  import opened Wrappers

  const MAX_CODE_POINT := 0x10FFFF

  predicate IsSurrogate(u: nat) {
    0xD800 <= u <= 0xDFFF
  }

  predicate IsScalar(u: nat) {
    u <= MAX_CODE_POINT && !IsSurrogate(u)
  }

  function Byte(n: nat): char
    requires n < 256
  {
    n as char
  }

  /** One to four bytes, as section 3 of RFC 3629 lays them out. */
  function Encode(u: nat): (b: string)
    requires u <= MAX_CODE_POINT
    ensures 1 <= |b| <= 4
  {
    if u < 0x80 then [Byte(u)]
    else if u < 0x800 then [Byte(0xC0 + u / 64), Byte(0x80 + u % 64)]
    else if u < 0x10000 then [Byte(0xE0 + u / 4096), Byte(0x80 + u / 64 % 64), Byte(0x80 + u % 64)]
    else [Byte(0xF0 + u / 262144), Byte(0x80 + u / 4096 % 64), Byte(0x80 + u / 64 % 64), Byte(0x80 + u % 64)]
  }

  function Bits6(c: char): nat {
    c as int % 64
  }

  predicate IsContinuation(c: char) {
    0x80 <= c as int < 0xC0
  }

  /** How long the character is that starts with the byte. */
  function Width(c: char): nat {
    var n := c as int;
    if n < 0x80 then 1 else if n < 0xE0 then 2 else if n < 0xF0 then 3 else 4
  }

  /** The code point at the start of `b`: the bits of its bytes put together. */
  function Decode(b: string): Option<nat> {
    if b == "" || |b| < Width(b[0]) then None
    else
      var n := b[0] as int;
      match Width(b[0])
      case 1 => Some(n)
      case 2 => Some((n % 32) * 64 + Bits6(b[1]))
      case 3 => Some((n % 16) * 4096 + Bits6(b[1]) * 64 + Bits6(b[2]))
      case _ => Some((n % 8) * 262144 + Bits6(b[1]) * 4096 + Bits6(b[2]) * 64 + Bits6(b[3]))
  }

  lemma Two(u: nat)
    requires 0x80 <= u < 0x800
    ensures 0xC2 <= 0xC0 + u / 64 < 0xE0 && (0xC0 + u / 64) % 32 * 64 + (0x80 + u % 64) % 64 == u
  {
  }

  lemma Three(u: nat)
    requires 0x800 <= u < 0x10000
    ensures 0xE0 <= 0xE0 + u / 4096 < 0xF0
    ensures (0xE0 + u / 4096) % 16 * 4096 + (0x80 + u / 64 % 64) % 64 * 64 + (0x80 + u % 64) % 64 == u
  {
    var a, b, c := u / 4096, u / 64 % 64, u % 64;
    assert u / 64 == a * 64 + b;
    assert (0xE0 + a) % 16 == a && (0x80 + b) % 64 == b && (0x80 + c) % 64 == c;
  }

  lemma Four(u: nat)
    requires 0x10000 <= u <= MAX_CODE_POINT
    ensures 0xF0 <= 0xF0 + u / 262144 <= 0xF4
    ensures (0xF0 + u / 262144) % 8 * 262144 + (0x80 + u / 4096 % 64) % 64 * 4096 +
            (0x80 + u / 64 % 64) % 64 * 64 + (0x80 + u % 64) % 64 == u
  {
    var a, b, c, d := u / 262144, u / 4096 % 64, u / 64 % 64, u % 64;
    assert u / 4096 == a * 64 + b;
    assert u / 64 == (a * 64 + b) * 64 + c;
    assert (0xF0 + a) % 8 == a && (0x80 + b) % 64 == b && (0x80 + c) % 64 == c && (0x80 + d) % 64 == d;
  }

  /** The bytes say which code point they are for, and all but the first are continuations. */
  lemma {:induction false} RoundTrip(u: nat, rest: string)
    requires u <= MAX_CODE_POINT
    ensures Decode(Encode(u) + rest) == Some(u)
    ensures Width(Encode(u)[0]) == |Encode(u)| && !IsContinuation(Encode(u)[0])
    ensures forall k :: 1 <= k < |Encode(u)| ==> IsContinuation(Encode(u)[k])
  {
    var e := Encode(u);
    var b := e + rest;
    assert b[0] == e[0];
    if u < 0x80 {
    } else if u < 0x800 {
      Two(u);
      Follow2(e, rest, 0xC0 + u / 64, 0x80 + u % 64);
    } else if u < 0x10000 {
      Three(u);
      Follow3(e, rest, 0xE0 + u / 4096, 0x80 + u / 64 % 64, 0x80 + u % 64);
    } else {
      Four(u);
      Follow4(e, rest, 0xF0 + u / 262144, 0x80 + u / 4096 % 64, 0x80 + u / 64 % 64, 0x80 + u % 64);
    }
  }

  lemma Follow2(e: string, rest: string, a: nat, b: nat)
    requires 0xC0 <= a < 0xE0 && 0x80 <= b < 0xC0 && e == [Byte(a), Byte(b)]
    ensures Decode(e + rest) == Some(a % 32 * 64 + b % 64)
    ensures Width(e[0]) == 2 && !IsContinuation(e[0]) && IsContinuation(e[1])
  {
    assert (e + rest)[1] == e[1];
  }

  lemma Follow3(e: string, rest: string, a: nat, b: nat, c: nat)
    requires 0xE0 <= a < 0xF0 && 0x80 <= b < 0xC0 && 0x80 <= c < 0xC0 && e == [Byte(a), Byte(b), Byte(c)]
    ensures Decode(e + rest) == Some(a % 16 * 4096 + b % 64 * 64 + c % 64)
    ensures Width(e[0]) == 3 && !IsContinuation(e[0]) && IsContinuation(e[1]) && IsContinuation(e[2])
  {
    assert (e + rest)[1] == e[1] && (e + rest)[2] == e[2];
  }

  lemma Follow4(e: string, rest: string, a: nat, b: nat, c: nat, d: nat)
    requires 0xF0 <= a < 0xF8 && 0x80 <= b < 0xC0 && 0x80 <= c < 0xC0 && 0x80 <= d < 0xC0
    requires e == [Byte(a), Byte(b), Byte(c), Byte(d)]
    ensures Decode(e + rest) == Some(a % 8 * 262144 + b % 64 * 4096 + c % 64 * 64 + d % 64)
    ensures Width(e[0]) == 4 && !IsContinuation(e[0])
    ensures IsContinuation(e[1]) && IsContinuation(e[2]) && IsContinuation(e[3])
  {
    assert (e + rest)[1] == e[1] && (e + rest)[2] == e[2] && (e + rest)[3] == e[3];
  }

  /** A text of code points. */
  function EncodeAll(us: seq<nat>): string
    requires forall k :: 0 <= k < |us| ==> IsScalar(us[k])
  {
    if us == [] then ""
    else
      assert IsScalar(us[0]);
      Encode(us[0]) + EncodeAll(us[1..])
  }
}
