/** The image of a structure, stored as records: a count of zero bytes, a count of literal
    bytes, the literal bytes. */
module ZeroRuns {
  import opened Wrappers

  type Byte = n: nat | n < 256
  type Bytes = seq<Byte>

  // ---------------------------------------------------------------------------------
  // Numbers as bytes, the lowest first.

  /** `n` in `width` bytes. */
  function Number(n: nat, width: nat): (b: Bytes)
    ensures |b| == width
  {
    if width == 0 then [] else [n % 256] + Number(n / 256, width - 1)
  }

  function Value(b: Bytes): nat {
    if b == [] then 0 else b[0] + 256 * Value(b[1..])
  }

  function Limit(width: nat): (r: nat)
    ensures r > 0
  {
    if width == 0 then 1 else 256 * Limit(width - 1)
  }

  lemma {:induction false} NumberValue(n: nat, width: nat)
    requires n < Limit(width)
    ensures Value(Number(n, width)) == n
  {
    if width > 0 {
      NumberValue(n / 256, width - 1);
    }
  }

  const U32_LIMIT := 0x1_0000_0000

  lemma U32Limit()
    ensures Limit(4) == U32_LIMIT
  {
    assert Limit(1) == 256;
    assert Limit(2) == 65536;
    assert Limit(3) == 16777216;
  }

  // ---------------------------------------------------------------------------------
  // The records of an image.

  /** How many zeros `s` starts with. */
  function Zeros(s: Bytes): (n: nat)
    ensures n <= |s| && (n < |s| ==> s[n] != 0) && forall i :: 0 <= i < n ==> s[i] == 0
  {
    if s == [] || s[0] != 0 then 0 else Zeros(s[1..]) + 1
  }

  const RUN := 8

  predicate StartsRun(s: Bytes) {
    |s| >= RUN && forall i :: 0 <= i < RUN ==> s[i] == 0
  }

  /** How many bytes of `s` come before a run of eight zeros or the end. */
  function Literal(s: Bytes): (n: nat)
    ensures n <= |s|
  {
    if s == [] || StartsRun(s) then 0 else Literal(s[1..]) + 1
  }

  lemma {:induction false} LiteralIs(s: Bytes)
    ensures var n := Literal(s);
            && (n == |s| || StartsRun(s[n..]))
            && forall i :: 0 <= i < n ==> !StartsRun(s[i..])
  {
    var n := Literal(s);
    assert s[0..] == s;
    if n > 0 {
      LiteralIs(s[1..]);
      assert s[n..] == s[1..][n - 1..];
      forall i | 0 <= i < n
        ensures !StartsRun(s[i..])
      {
        if i > 0 {
          assert s[i..] == s[1..][i - 1..];
        }
      }
    }
  }

  /** A record covers something. */
  lemma Covers(s: Bytes)
    requires s != []
    ensures Zeros(s) + Literal(s[Zeros(s)..]) > 0
  {
    if s[0] != 0 {
      assert s[0..] == s;
    }
  }

  function Encode(s: Bytes): Bytes
    decreases |s|
  {
    if s == [] then []
    else
      var z := Zeros(s);
      var n := Literal(s[z..]);
      Covers(s);
      Number(z, 4) + Number(n, 4) + s[z..z + n] + Encode(s[z + n..])
  }

  /** What the records at the start of `data` say about `need` bytes, and how many bytes of
      `data` they take; nothing when they do not fit, or one covers nothing. */
  function Decode(data: Bytes, need: nat): (r: Option<(Bytes, nat)>)
    ensures r.Some? ==> |r.value.0| == need && r.value.1 <= |data|
    decreases need
  {
    if need == 0 then Some(([], 0))
    else if |data| < 8 then None
    else
      var z, n := Value(data[..4]), Value(data[4..8]);
      if z > need || n > need - z || n > |data| - 8 || z + n == 0 then None
      else
        match Decode(data[8 + n..], need - z - n)
        case None => None
        case Some(rest) => Some((Blank(z) + data[8..8 + n] + rest.0, 8 + n + rest.1))
  }

  function Blank(n: nat): (s: Bytes)
    ensures |s| == n && forall i :: 0 <= i < n ==> s[i] == 0
  {
    seq(n, _ => 0)
  }

  function Record(z: nat, n: nat, literal: Bytes): Bytes {
    Number(z, 4) + Number(n, 4) + literal
  }

  lemma EncodeStep(s: Bytes)
    requires s != []
    ensures var z := Zeros(s);
            var n := Literal(s[z..]);
            z + n > 0 && Encode(s) == Record(z, n, s[z..z + n]) + Encode(s[z + n..])
  {
    hide Zeros, Literal, Number;
    Covers(s);
  }

  lemma RecordParts(z: nat, n: nat, literal: Bytes, rest: Bytes)
    requires |literal| == n && z < U32_LIMIT && n < U32_LIMIT
    ensures var data := Record(z, n, literal) + rest;
            && |data| == 8 + n + |rest| && Value(data[..4]) == z && Value(data[4..8]) == n
            && data[8..8 + n] == literal && data[8 + n..] == rest
  {
    hide Value, Number, Limit;
    U32Limit();
    NumberValue(z, 4);
    NumberValue(n, 4);
    var data := Record(z, n, literal) + rest;
    assert data[..4] == Number(z, 4);
    assert data[4..8] == Number(n, 4);
  }

  /** What was read, then what is read on. */
  ghost function Onward(done: Bytes, taken: nat, r: Option<(Bytes, nat)>): Option<(Bytes, nat)> {
    match r
    case None => None
    case Some(rest) => Some((done + rest.0, taken + rest.1))
  }

  lemma DecodeRecord(z: nat, n: nat, literal: Bytes, rest: Bytes, need: nat)
    requires |literal| == n && 0 < z + n <= need < U32_LIMIT
    ensures Decode(Record(z, n, literal) + rest, need) == Onward(Blank(z) + literal, 8 + n, Decode(rest, need - z - n))
  {
    hide Value, Number, Record;
    RecordParts(z, n, literal, rest);
  }

  /** Reading back what was written, whatever follows it, gives the image and stops where the
      records end. */
  lemma {:induction false} RoundTrip(s: Bytes, rest: Bytes)
    requires |s| < U32_LIMIT
    ensures Decode(Encode(s) + rest, |s|) == Some((s, |Encode(s)|))
    decreases |s|
  {
    hide Zeros, Literal, Decode, Encode, Record;
    if s == [] {
      NothingLeft();
      NothingNeeded(Encode(s) + rest);
    } else {
      var z := Zeros(s);
      var n := Literal(s[z..]);
      EncodeStep(s);
      RoundTrip(s[z + n..], rest);
      RoundTripStep(s, z, n, rest);
    }
  }

  lemma RoundTripStep(s: Bytes, z: nat, n: nat, rest: Bytes)
    requires |s| < U32_LIMIT && z == Zeros(s) && 0 < z + n <= |s|
    requires Encode(s) == Record(z, n, s[z..z + n]) + Encode(s[z + n..])
    requires Decode(Encode(s[z + n..]) + rest, |s| - z - n) == Some((s[z + n..], |Encode(s[z + n..])|))
    ensures Decode(Encode(s) + rest, |s|) == Some((s, |Encode(s)|))
  {
    hide Record, Zeros, Decode, Blank, Onward, Encode;
    var literal, after := s[z..z + n], s[z + n..];
    var more := Encode(after);
    Regroup(Record(z, n, literal), more, rest);
    DecodeRecord(z, n, literal, more + rest, |s|);
    Rejoin(s, z, n);
    OnwardSome(Blank(z) + literal, 8 + n, after, |more|);
    RecordLength(z, n, literal);
  }

  lemma OnwardSome(done: Bytes, taken: nat, more: Bytes, n: nat)
    ensures Onward(done, taken, Some((more, n))) == Some((done + more, taken + n))
  {
  }

  lemma Regroup(a: Bytes, b: Bytes, c: Bytes)
    ensures a + b + c == a + (b + c)
  {
  }

  lemma Rejoin(s: Bytes, z: nat, n: nat)
    requires z == Zeros(s) && z + n <= |s|
    ensures (Blank(z) + s[z..z + n]) + s[z + n..] == s
  {
    hide Zeros, Blank;
    ZerosAre(s);
    Split(s, z, z + n);
  }

  lemma Split(s: Bytes, a: nat, b: nat)
    requires a <= b <= |s|
    ensures s == s[..a] + s[a..b] + s[b..]
  {
  }

  lemma NothingNeeded(data: Bytes)
    ensures Decode(data, 0) == Some(([], 0))
  {
  }

  lemma RecordLength(z: nat, n: nat, literal: Bytes)
    ensures |Record(z, n, literal)| == 8 + |literal|
  {
    hide Number;
  }

  lemma ZerosAre(s: Bytes)
    ensures s[..Zeros(s)] == Blank(Zeros(s))
  {
    hide Zeros;
  }

  // ---------------------------------------------------------------------------------
  // The loops.

  /** Writes the records of an image. */
  method WriteImage(image: Bytes) returns (out: Bytes)
    requires |image| < U32_LIMIT
    ensures out == Encode(image)
  {
    hide Zeros, Literal, Number, Encode;
    out := [];
    var position := 0;
    assert image[0..] == image;
    while position < |image|
      invariant 0 <= position <= |image|
      invariant Encode(image) == out + Encode(image[position..])
    {
      ghost var rest := image[position..];
      EncodeStep(rest);
      var zeros := CountZeros(image, position);
      var literal := CountLiteral(image, position + zeros);
      assert image[position + zeros..] == rest[zeros..];
      assert image[position + zeros..position + zeros + literal] == rest[zeros..zeros + literal];
      assert image[position + zeros + literal..] == rest[zeros + literal..];
      out := out + (Number(zeros, 4) + Number(literal, 4) +
                    image[position + zeros..position + zeros + literal]);
      position := position + zeros + literal;
    }
    NothingLeft();
    assert image[position..] == [];
  }

  lemma NothingLeft()
    ensures Encode([]) == []
  {
  }

  method CountZeros(image: Bytes, position: nat) returns (zeros: nat)
    requires position <= |image|
    ensures zeros == Zeros(image[position..])
  {
    zeros := 0;
    while position + zeros < |image| && image[position + zeros] == 0
      invariant position + zeros <= |image|
      invariant forall i :: position <= i < position + zeros ==> image[i] == 0
    {
      zeros := zeros + 1;
    }
    ZerosAreAll(image[position..], zeros);
  }

  lemma ZerosAreAll(s: Bytes, n: nat)
    requires n <= |s| && (n < |s| ==> s[n] != 0) && forall i :: 0 <= i < n ==> s[i] == 0
    ensures Zeros(s) == n
  {
  }

  /** The literal from `start`: counts on through zeros until there are eight of them. */
  method CountLiteral(image: Bytes, start: nat) returns (literal: nat)
    requires start <= |image|
    ensures literal == Literal(image[start..])
  {
    literal := 0;
    var trailing := 0;
    ghost var s := image[start..];
    while start + literal < |image|
      invariant 0 <= trailing < RUN && trailing <= literal <= |s|
      invariant forall i :: literal - trailing <= i < literal ==> s[i] == 0
      invariant trailing < literal ==> s[literal - trailing - 1] != 0
      invariant forall i :: 0 <= i < literal - trailing ==> !StartsRun(s[i..])
      decreases |image| - literal
    {
      if image[start + literal] == 0 {
        trailing := trailing + 1;
        if trailing >= RUN {
          break;
        }
      } else {
        NoRunBefore(s, literal - trailing, literal);
        trailing := 0;
      }
      literal := literal + 1;
    }
    if trailing < RUN {
      NoRunAtEnd(s, literal - trailing);
      LiteralEnds(s, literal);
    } else {
      literal := literal - 7;
      RunStarts(s, literal);
      LiteralEnds(s, literal);
    }
  }

  /** Zeros up to something else, fewer than eight: no run starts among them or there. */
  lemma NoRunBefore(s: Bytes, from: nat, to: nat)
    requires from <= to < |s| && to - from < RUN && s[to] != 0
    requires forall i :: 0 <= i < from ==> !StartsRun(s[i..])
    ensures forall i :: 0 <= i <= to ==> !StartsRun(s[i..])
  {
    forall i | 0 <= i <= to
      ensures !StartsRun(s[i..])
    {
      if i >= from && |s[i..]| >= RUN {
        assert s[i..][to - i] == s[to];
      }
    }
  }

  lemma NoRunAtEnd(s: Bytes, from: nat)
    requires from <= |s| && |s| - from < RUN && forall i :: 0 <= i < from ==> !StartsRun(s[i..])
    ensures forall i :: 0 <= i < |s| ==> !StartsRun(s[i..])
  {
  }

  lemma RunStarts(s: Bytes, from: nat)
    requires from + RUN <= |s| && forall i :: from <= i < from + RUN ==> s[i] == 0
    ensures StartsRun(s[from..])
  {
  }

  lemma {:induction false} LiteralEnds(s: Bytes, n: nat)
    requires n <= |s| && (n == |s| || StartsRun(s[n..])) && forall i :: 0 <= i < n ==> !StartsRun(s[i..])
    ensures Literal(s) == n
  {
    assert s[0..] == s;
    if n > 0 {
      forall i | 0 <= i < n - 1
        ensures !StartsRun(s[1..][i..])
      {
        assert s[1..][i..] == s[i + 1..];
      }
      assert n < |s| ==> s[1..][n - 1..] == s[n..];
      LiteralEnds(s[1..], n - 1);
    }
  }

  /** Takes `size` bytes at the cursor, if there are as many. */
  method Take(data: Bytes, cursor: nat, size: nat) returns (taken: Option<Bytes>, next: nat)
    requires cursor <= |data|
    ensures if size <= |data| - cursor then taken == Some(data[cursor..cursor + size]) && next == cursor + size
            else taken.None? && next == cursor
  {
    if size > |data| - cursor {
      return None, cursor;
    }
    return Some(data[cursor..cursor + size]), cursor + size;
  }

  lemma DecodeStep(data: Bytes, need: nat)
    requires need > 0
    ensures |data| < 8 ==> Decode(data, need).None?
    ensures |data| >= 8 ==>
      var z, n := Value(data[..4]), Value(data[4..8]);
      Decode(data, need) ==
      if z > need || n > need - z || n > |data| - 8 || z + n == 0 then None
      else Onward(Blank(z) + data[8..8 + n], 8 + n, Decode(data[8 + n..], need - z - n))
  {
    hide Value;
  }

  /** Reads one record into place. */
  method ReadRecord(data: Bytes, at: nat, view: array<Byte>, position: nat) returns (ok: bool, cursor: nat, end: nat)
    requires at <= |data| && position < view.Length && forall i :: position <= i < view.Length ==> view[i] == 0
    modifies view
    ensures view[..position] == old(view[..position])
    ensures !ok ==> Decode(data[at..], view.Length - position).None?
    ensures ok ==>
      && at <= cursor <= |data| && position < end <= view.Length && (forall i :: end <= i < view.Length ==> view[i] == 0)
      && Decode(data[at..], view.Length - position) ==
         Onward(view[position..end], cursor - at, Decode(data[cursor..], view.Length - end))
  {
    hide Value, Decode, Onward, Blank;
    var room := view.Length - position;
    ghost var rest := data[at..];
    DecodeStep(rest, room);
    var header, literal;
    end := position;
    header, cursor := Take(data, at, 8);
    if header.None? {
      return false, cursor, end;
    }
    var z, n := Value(header.value[..4]), Value(header.value[4..]);
    assert header.value[..4] == rest[..4] && header.value[4..] == rest[4..8];
    if z > room || n > room - z {
      return false, cursor, end;
    }
    literal, cursor := Take(data, cursor, n);
    if literal.None? {
      return false, cursor, end;
    }
    if z == 0 && n == 0 {
      return false, cursor, end;
    }
    Within(data, at, 8, 8 + n);
    end := position + z + n;
    Copy(view, position + z, literal.value);
    Covered(view[position..end], z, literal.value);
    ok := true;
  }

  lemma Covered(s: Bytes, z: nat, literal: Bytes)
    requires |s| == z + |literal| && (forall i :: 0 <= i < z ==> s[i] == 0)
    requires forall i :: 0 <= i < |literal| ==> s[z + i] == literal[i]
    ensures s == Blank(z) + literal
  {
  }

  /** Reads an image into place, record by record, from `start` on. Whatever the bytes are, it
      ends and stays within them. */
  method ReadImage(data: Bytes, start: nat, view: array<Byte>) returns (ok: bool, cursor: nat)
    requires start <= |data| && forall i :: 0 <= i < view.Length ==> view[i] == 0
    modifies view
    ensures ok <==> Decode(data[start..], view.Length).Some?
    ensures ok ==> Decode(data[start..], view.Length) == Some((view[..], cursor - start)) && start <= cursor <= |data|
  {
    hide Decode;
    var position := 0;
    cursor := start;
    OnwardStart(Decode(data[start..], view.Length));
    assert view[..0] == [];
    while position < view.Length
      invariant 0 <= position <= view.Length && start <= cursor <= |data|
      invariant forall i :: position <= i < view.Length ==> view[i] == 0
      invariant Decode(data[start..], view.Length) ==
                Onward(view[..position], cursor - start, Decode(data[cursor..], view.Length - position))
      decreases view.Length - position
    {
      ghost var before := view[..position];
      var next, end;
      ok, next, end := ReadRecord(data, cursor, view, position);
      if !ok {
        return;
      }
      assert view[..end] == before + view[position..end];
      OnwardStep(before, cursor - start, view[position..end], next - cursor, Decode(data[next..], view.Length - end));
      cursor, position := next, end;
    }
    assert view[..position] == view[..];
    NothingNeeded(data[cursor..]);
    OnwardEnd(view[..], cursor - start);
    ok := true;
  }

  lemma Within(s: Bytes, a: nat, b: nat, c: nat)
    requires b <= c && a + c <= |s|
    ensures s[a..][b..c] == s[a + b..a + c] && s[a..][c..] == s[a + c..]
  {
  }

  lemma OnwardStart(r: Option<(Bytes, nat)>)
    ensures Onward([], 0, r) == r
  {
    if r.Some? {
      assert [] + r.value.0 == r.value.0;
    }
  }

  method Copy(view: array<Byte>, at: nat, source: Bytes)
    requires at + |source| <= view.Length
    modifies view
    ensures forall k :: 0 <= k < |source| ==> view[at + k] == source[k]
    ensures forall k :: 0 <= k < at || at + |source| <= k < view.Length ==> view[k] == old(view[k])
  {
    var i := 0;
    while i < |source|
      invariant 0 <= i <= |source| && forall k :: 0 <= k < i ==> view[at + k] == source[k]
      invariant forall k :: 0 <= k < at || at + i <= k < view.Length ==> view[k] == old(view[k])
    {
      view[at + i] := source[i];
      i := i + 1;
    }
  }

  lemma OnwardStep(done: Bytes, taken: nat, covered: Bytes, more: nat, r: Option<(Bytes, nat)>)
    ensures Onward(done, taken, Onward(covered, more, r)) == Onward(done + covered, taken + more, r)
  {
    if r.Some? {
      assert done + (covered + r.value.0) == done + covered + r.value.0;
    }
  }

  lemma OnwardEnd(done: Bytes, taken: nat)
    ensures Onward(done, taken, Some(([], 0))) == Some((done, taken))
  {
    assert done + [] == done;
  }
}
