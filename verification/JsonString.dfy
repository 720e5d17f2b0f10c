/** Strings of the JSON library: escaping into a buffer of precomputed size, and reading a string token back. */
module JsonStrings {
  import opened Bson

  const QUOTE: byte := 34
  const BACKSLASH: byte := 92

  // ---- Escaping.

  /** A number below 16 as a hexadecimal digit. */
  function Hexify(v: nat): byte
    requires v < 16
  {
    if v < 10 then 48 + v else 87 + v
  }

  /** The letter of a two-byte escape, or zero. */
  function Letter(c: byte): byte {
    if c == QUOTE || c == BACKSLASH then c
    else if c == 8 then 98
    else if c == 12 then 102
    else if c == 10 then 110
    else if c == 13 then 114
    else if c == 9 then 116
    else 0
  }

  function EscapeByte(c: byte): bytes {
    if Letter(c) != 0 then [BACKSLASH, Letter(c)]
    else if c <= 0x1F then [BACKSLASH, 117, 48, 48, Hexify(c / 16), Hexify(c % 16)]
    else [c]
  }

  function Escaped(s: bytes): bytes {
    if s == [] then [] else EscapeByte(s[0]) + Escaped(s[1..])
  }

  function Extra(c: byte): nat { if Letter(c) != 0 then 1 else if c <= 0x1F then 5 else 0 }

  function ExtraAll(s: bytes): nat { if s == [] then 0 else Extra(s[0]) + ExtraAll(s[1..]) }

  lemma Assoc(a: bytes, b: bytes, c: bytes)
    ensures a + (b + c) == a + b + c
  {
  }

  lemma {:induction false} EscapedConcat(a: bytes, b: bytes)
    ensures Escaped(a + b) == Escaped(a) + Escaped(b)
  {
    if a == [] {
      assert a + b == b;
    } else {
      assert (a + b)[1..] == a[1..] + b;
      EscapedConcat(a[1..], b);
      Assoc(EscapeByte(a[0]), Escaped(a[1..]), Escaped(b));
    }
  }

  lemma {:induction false} ExtraConcat(a: bytes, b: bytes)
    ensures ExtraAll(a + b) == ExtraAll(a) + ExtraAll(b)
  {
    if a == [] {
      assert a + b == b;
    } else {
      ExtraConcat(a[1..], b);
      assert (a + b)[1..] == a[1..] + b;
    }
  }

  lemma EscapedOneMore(s: bytes, i: nat)
    requires i < |s|
    ensures Escaped(s[..i + 1]) == Escaped(s[..i]) + EscapeByte(s[i])
    ensures ExtraAll(s[..i + 1]) == ExtraAll(s[..i]) + Extra(s[i])
  {
    assert s[..i + 1] == s[..i] + [s[i]];
    EscapedConcat(s[..i], [s[i]]);
    ExtraConcat(s[..i], [s[i]]);
    assert [s[i]][1..] == [];
  }

  lemma {:induction false} EscapedLength(s: bytes)
    ensures |Escaped(s)| == |s| + ExtraAll(s)
    ensures ExtraAll(s) == 0 ==> Escaped(s) == s
  {
    if s == [] {
    } else {
      EscapedLength(s[1..]);
    }
  }

  method ExtraSpace(s: bytes) returns (n: nat)
    ensures n == ExtraAll(s)
  {
    n := 0;
    for i := 0 to |s|
      invariant n == ExtraAll(s[..i])
    {
      EscapedOneMore(s, i);
      n := n + Extra(s[i]);
    }
    assert s[..|s|] == s;
  }

  /** Writes one byte, or its escape over backslashes. */
  method PutByte(buffer: array<byte>, pos: nat, c: byte) returns (pos': nat)
    requires pos + 1 + Extra(c) <= buffer.Length
    requires forall k :: pos <= k < buffer.Length ==> buffer[k] == BACKSLASH
    modifies buffer
    ensures pos' == pos + 1 + Extra(c) && buffer[..pos'] == old(buffer[..pos]) + EscapeByte(c)
    ensures forall k :: pos' <= k < buffer.Length ==> buffer[k] == BACKSLASH
  {
    if Letter(c) != 0 {
      buffer[pos + 1] := Letter(c);
      pos' := pos + 2;
    } else if c <= 0x1F {
      buffer[pos + 1] := 117;
      buffer[pos + 2] := 48;
      buffer[pos + 3] := 48;
      buffer[pos + 4] := Hexify(c / 16);
      buffer[pos + 5] := Hexify(c % 16);
      pos' := pos + 6;
    } else {
      buffer[pos] := c;
      pos' := pos + 1;
    }
  }

  /** The precomputed buffer, full of backslashes at first, is filled exactly. */
  method EscapeString(s: bytes) returns (r: bytes)
    ensures r == Escaped(s)
  {
    var space := ExtraSpace(s);
    EscapedLength(s);
    if space == 0 {
      return s;
    }
    var buffer := new byte[|s| + space](_ => BACKSLASH);
    var pos: nat := 0;
    for i := 0 to |s|
      invariant pos + (|s| - i) + ExtraAll(s[i..]) == buffer.Length
      invariant buffer[..pos] == Escaped(s[..i])
      invariant forall k :: pos <= k < buffer.Length ==> buffer[k] == BACKSLASH
    {
      EscapedOneMore(s, i);
      assert s[i..][1..] == s[i + 1..];
      pos := PutByte(buffer, pos, s[i]);
    }
    assert s[..|s|] == s && s[|s|..] == [];
    r := buffer[..];
  }

  // ---- What a string token may hold between its quotes.

  predicate IsHex(c: byte) { 48 <= c <= 57 || 65 <= c <= 70 || 97 <= c <= 102 }

  function HexValue(c: byte): nat
    requires IsHex(c)
  {
    if c <= 57 then c - 48 else if c <= 70 then c - 55 else c - 87
  }

  predicate Hex4(s: bytes) { |s| >= 4 && IsHex(s[0]) && IsHex(s[1]) && IsHex(s[2]) && IsHex(s[3]) }

  function Code4(s: bytes): (n: nat)
    requires Hex4(s)
    ensures n < 0x1_0000
  {
    0x1000 * HexValue(s[0]) + 0x100 * HexValue(s[1]) + 0x10 * HexValue(s[2]) + HexValue(s[3])
  }

  /** The byte that a two-byte escape with this letter stands for, or zero. */
  function Meaning(c: byte): byte {
    if c == QUOTE || c == BACKSLASH || c == 47 then c
    else if c == 98 then 8
    else if c == 102 then 12
    else if c == 110 then 10
    else if c == 114 then 13
    else if c == 116 then 9
    else 0
  }

  /** The length of the first character or escape as the scanner sees it, or zero: control bytes below 16, quotes and
      broken escapes do not go on. */
  function UnitLength(s: bytes): nat {
    if s == [] || s[0] == QUOTE || s[0] < 0x10 then 0
    else if s[0] != BACKSLASH then 1
    else if |s| >= 2 && Meaning(s[1]) != 0 then 2
    else if |s| >= 2 && s[1] == 117 && Hex4(s[2..]) then 6
    else 0
  }

  predicate IsBody(s: bytes)
    decreases |s|
  {
    s == [] || (0 < UnitLength(s) <= |s| && IsBody(s[UnitLength(s)..]))
  }

  // ---- Unicode.

  /** A code point in UTF-8, as in section 3 of RFC 3629. */
  function ToUnicode(n: nat): bytes
    requires n <= 0x10_FFFF
  {
    if n < 0x80 then [n]
    else if n <= 0x7FF then [0xC0 + n / 64, 0x80 + n % 64]
    else if n <= 0xFFFF then [0xE0 + n / 4096, 0x80 + n / 64 % 64, 0x80 + n % 64]
    else [0xF0 + n / 0x4_0000, 0x80 + n / 4096 % 64, 0x80 + n / 64 % 64, 0x80 + n % 64]
  }

  /** The code point that UTF-8 bytes stand for: the bits of the first byte, then six of each of the others. */
  function FromUtf8(s: bytes): int {
    if |s| == 0 then -1 else
      var first: int := s[0];
      match |s|
      case 1 => first
      case 2 => (first - 0xC0) * 64 + Six(s[1])
      case 3 => (first - 0xE0) * 4096 + Six(s[1]) * 64 + Six(s[2])
      case 4 => (first - 0xF0) * 0x4_0000 + Six(s[1]) * 4096 + Six(s[2]) * 64 + Six(s[3])
      case _ => -1
  }

  function Six(c: byte): int {
    var n: int := c;
    n - 0x80
  }

  /** Every code point comes back, every byte but a lone first one is a continuation byte, and no code point takes
      more bytes than it needs. */
  lemma Utf8RoundTrip(n: nat)
    requires n <= 0x10_FFFF
    ensures FromUtf8(ToUnicode(n)) == n
    ensures forall i :: 0 < i < |ToUnicode(n)| ==> 0x80 <= ToUnicode(n)[i] < 0xC0
    ensures |ToUnicode(n)| == if n < 0x80 then 1 else if n < 0x800 then 2 else if n < 0x1_0000 then 3 else 4
  {
    var a := n / 64;
    var b := a / 64;
    assert n == 64 * a + n % 64 && a == 64 * b + a % 64 && b == 64 * (b / 64) + b % 64;
    assert n / 4096 == b && n / 0x4_0000 == b / 64;
  }

  predicate IsHigh(n: nat) { 0xD800 <= n <= 0xDBFF }

  predicate IsLow(n: nat) { 0xDC00 <= n <= 0xDFFF }

  /** The code point of a surrogate pair. */
  function Paired(high: nat, low: nat): (n: nat)
    requires IsHigh(high) && IsLow(low)
    ensures 0x1_0000 <= n <= 0x10_FFFF
  {
    high * 1024 + low - 0x35F_DC00
  }

  // ---- Reading a token.

  datatype Read = Good(text: bytes) | Bad

  function Unescaped(s: bytes): Read
    requires IsBody(s)
    decreases |s|
  {
    if s == [] then Good([]) else
      var n := UnitLength(s);
      var rest := s[n..];
      if n == 1 then Prefixed([s[0]], Unescaped(rest))
      else if n == 2 then Prefixed([Meaning(s[1])], Unescaped(rest))
      else
        var code := Code4(s[2..]);
        if !IsHigh(code) then Prefixed(ToUnicode(code), Unescaped(rest))
        else if UnitLength(rest) != 6 || !IsLow(Code4(rest[2..])) then Bad
        else Prefixed(ToUnicode(Paired(code, Code4(rest[2..]))), Unescaped(rest[6..]))
  }

  function Prefixed(text: bytes, r: Read): Read { if r.Good? then Good(text + r.text) else Bad }

  lemma PrefixedTwice(a: bytes, b: bytes, r: Read)
    ensures Prefixed(a, Prefixed(b, r)) == Prefixed(a + b, r)
  {
    if r.Good? { Assoc(a, b, r.text); }
  }

  /** The loop over the bytes of a token: one character or escape in each round. */
  method GetString(s: bytes) returns (r: Read)
    requires IsBody(s)
    ensures r == Unescaped(s)
  {
    var result: bytes := [];
    var i := 0;
    assert s[0..] == s;
    while i < |s|
      invariant i <= |s| && IsBody(s[i..]) && Unescaped(s) == Prefixed(result, Unescaped(s[i..]))
      decreases |s| - i
    {
      ghost var t, before := s[i..], result;
      var n, text := UnitLength(s[i..]), [];
      if n == 1 {
        text := [s[i]];
      } else if n == 2 {
        text := [Meaning(s[i + 1])];
      } else {
        var code := Code4(s[i + 2..]);
        if IsHigh(code) {
          if UnitLength(s[i + 6..]) != 6 || !IsLow(Code4(s[i + 8..])) {
            return Bad;
          }
          text := ToUnicode(Paired(code, Code4(s[i + 8..])));
          n := 12;
        } else {
          text := ToUnicode(code);
        }
      }
      result := result + text;
      i := i + n;
      PrefixedTwice(before, text, Unescaped(s[i..]));
    }
    r := Good(result);
  }

  // ---- The round trip.

  /** An escape is one unit for the scanner, whatever follows, and says what was escaped. */
  lemma EscapeIsUnit(c: byte, rest: bytes)
    ensures var s := EscapeByte(c) + rest;
      && UnitLength(s) == |EscapeByte(c)| && s[UnitLength(s)..] == rest
      && (|EscapeByte(c)| == 1 ==> s[0] == c) && (|EscapeByte(c)| == 2 ==> Meaning(s[1]) == c)
      && (|EscapeByte(c)| == 6 ==> Code4(s[2..]) == c < 0x20)
  {
    var s := EscapeByte(c) + rest;
    if |EscapeByte(c)| == 6 {
      assert s[2..] == [48, 48, Hexify(c / 16), Hexify(c % 16)] + rest;
    }
  }

  /** Every byte string, escaped, is a token that reads back as it was. */
  lemma {:induction false} StringRoundTrip(s: bytes)
    ensures IsBody(Escaped(s)) && Unescaped(Escaped(s)) == Good(s)
  {
    if s == [] {
    } else {
      StringRoundTrip(s[1..]);
      EscapeIsUnit(s[0], Escaped(s[1..]));
      assert [s[0]] + s[1..] == s;
    }
  }
}
