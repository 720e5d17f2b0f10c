/** What a string token stands for, told by the pieces it is made of: bytes, short escapes and code points. */
module JsonPieces {
  import opened Bson
  import opened JsonStrings

  const LOWER: bytes := [48, 49, 50, 51, 52, 53, 54, 55, 56, 57, 97, 98, 99, 100, 101, 102]
  const UPPER: bytes := [48, 49, 50, 51, 52, 53, 54, 55, 56, 57, 65, 66, 67, 68, 69, 70]

  /** `d` is `n` in hexadecimal digits, each in upper or lower case. */
  predicate Spells(d: bytes, n: nat) {
    if d == [] then n == 0 else
      (d[|d| - 1] == LOWER[n % 16] || d[|d| - 1] == UPPER[n % 16]) && Spells(d[..|d| - 1], n / 16)
  }

  /** The escapes of two bytes: a letter and what it stands for, as in section 7 of RFC 7159. */
  const SHORTS: set<(byte, byte)> :=
    {(34, 34), (92, 92), (47, 47), (98, 8), (102, 12), (110, 10), (114, 13), (116, 9)}

  /** A byte that stands for itself, a short escape, a code point, and one given by the halves of its UTF-16 form. */
  datatype Piece = Plain(c: byte) | Short(letter: byte, c: byte) | Code(d: bytes, n: nat)
    | Pair(d: bytes, e: bytes, n: nat)

  predicate IsPiece(p: Piece) {
    match p
    case Plain(c) => c >= 0x10 && c != 34 && c != 92
    case Short(letter, c) => (letter, c) in SHORTS
    case Code(d, n) => !(0xD800 <= n < 0xDC00) && |d| == 4 && Spells(d, n)
    case Pair(d, e, n) =>
      && 0x1_0000 <= n <= 0x10_FFFF && |d| == |e| == 4
      && Spells(d, 0xD800 + (n - 0x1_0000) / 0x400) && Spells(e, 0xDC00 + (n - 0x1_0000) % 0x400)
  }

  function Spelling(p: Piece): bytes {
    match p
    case Plain(c) => [c]
    case Short(letter, _) => [92, letter]
    case Code(d, _) => [92, 117] + d
    case Pair(d, e, _) => [92, 117] + d + ([92, 117] + e)
  }

  /** What a piece stands for; a code point is written in UTF-8. */
  function Sense(p: Piece): bytes
    requires IsPiece(p)
  {
    match p
    case Plain(c) => [c]
    case Short(_, c) => [c]
    case Code(d, n) => SpelledCode(d, n, []); ToUnicode(n)
    case Pair(_, _, n) => ToUnicode(n)
  }

  predicate AllPieces(pieces: seq<Piece>) { forall k :: 0 <= k < |pieces| ==> IsPiece(pieces[k]) }

  function Spellings(pieces: seq<Piece>): bytes {
    if pieces == [] then [] else Spelling(pieces[0]) + Spellings(pieces[1..])
  }

  function Senses(pieces: seq<Piece>): bytes
    requires AllPieces(pieces)
  {
    if pieces == [] then [] else Sense(pieces[0]) + Senses(pieces[1..])
  }

  lemma SpelledDigit(c: byte, v: nat)
    requires v < 16
    ensures c == LOWER[v] || c == UPPER[v] <==> IsHex(c) && HexValue(c) == v
  {
  }

  /** One digit after the other. */
  lemma SpelledMore(d: bytes, c: byte, n: nat)
    ensures Spells(d + [c], n) <==> IsHex(c) && HexValue(c) == n % 16 && Spells(d, n / 16)
  {
    assert (d + [c])[..|d|] == d;
    SpelledDigit(c, n % 16);
  }

  lemma SpelledCode(d: bytes, n: nat, rest: bytes)
    requires |d| == 4
    ensures Spells(d, n) <==> Hex4(d + rest) && Code4(d + rest) == n
  {
    assert d == [] + [d[0]] + [d[1]] + [d[2]] + [d[3]];
    SpelledMore([] + [d[0]] + [d[1]] + [d[2]], d[3], n);
    SpelledMore([] + [d[0]] + [d[1]], d[2], n / 16);
    SpelledMore([] + [d[0]], d[1], n / 16 / 16);
    SpelledMore([], d[0], n / 16 / 16 / 16);
    if Hex4(d) { CodeDigits(d, n); }
  }

  lemma LowDigit(q: nat, r: nat, n: nat)
    requires r < 16
    ensures 16 * q + r == n <==> q == n / 16 && r == n % 16
  {
  }

  lemma CodeDigits(d: bytes, n: nat)
    requires Hex4(d)
    ensures
      var a, b, c, e := HexValue(d[0]), HexValue(d[1]), HexValue(d[2]), HexValue(d[3]);
      Code4(d) == n <==>
        && e == n % 16 && c == n / 16 % 16 && b == n / 16 / 16 % 16
        && a == n / 16 / 16 / 16 % 16 && n / 16 / 16 / 16 / 16 == 0
  {
    var a, b, c, e := HexValue(d[0]), HexValue(d[1]), HexValue(d[2]), HexValue(d[3]);
    LowDigit(16 * (16 * a + b) + c, e, n);
    LowDigit(16 * a + b, c, n / 16);
    LowDigit(a, b, n / 16 / 16);
    LowDigit(0, a, n / 16 / 16 / 16);
  }

  lemma ShortMeaning(letter: byte)
    ensures Meaning(letter) != 0 <==> (letter, Meaning(letter)) in SHORTS
    ensures forall c: byte :: (letter, c) in SHORTS ==> c == Meaning(letter) != 0
  {
  }

  /** An escape of six bytes, at the beginning. */
  lemma CodeUnit(d: bytes, n: nat, rest: bytes)
    requires |d| == 4 && Spells(d, n)
    ensures
      var s := [92, 117] + d + rest;
      UnitLength(s) == 6 && Hex4(s[2..]) && Code4(s[2..]) == n && s[6..] == rest
  {
    var s := [92, 117] + d + rest;
    assert s[2..] == d + rest;
    SpelledCode(d, n, rest);
  }

  lemma PairedHalves(n: nat)
    requires 0x1_0000 <= n <= 0x10_FFFF
    ensures
      var high, low := 0xD800 + (n - 0x1_0000) / 0x400, 0xDC00 + (n - 0x1_0000) % 0x400;
      IsHigh(high) && IsLow(low) && Paired(high, low) == n
  {
  }

  /** Two escapes of six bytes that make up one code point. */
  lemma PairStep(s: bytes, behind: bytes, rest: bytes)
    requires UnitLength(s) == UnitLength(behind) == 6 && s[6..] == behind && behind[6..] == rest && IsBody(rest)
    requires IsHigh(Code4(s[2..])) && IsLow(Code4(behind[2..]))
    ensures IsBody(s)
    ensures Unescaped(s) == Prefixed(ToUnicode(Paired(Code4(s[2..]), Code4(behind[2..]))), Unescaped(rest))
  {
    assert IsBody(behind);
  }

  lemma HalvesRead(d: bytes, e: bytes, high: nat, low: nat, rest: bytes)
    requires |d| == |e| == 4 && Spells(d, high) && Spells(e, low) && IsHigh(high) && IsLow(low) && IsBody(rest)
    ensures
      var s := [92, 117] + d + ([92, 117] + e) + rest;
      IsBody(s) && Unescaped(s) == Prefixed(ToUnicode(Paired(high, low)), Unescaped(rest))
  {
    var behind := [92, 117] + e + rest;
    PairText(d, e, rest);
    CodeUnit(d, high, behind);
    CodeUnit(e, low, rest);
    PairStep([92, 117] + d + behind, behind, rest);
  }

  lemma PairReads(d: bytes, e: bytes, n: nat, rest: bytes)
    requires IsPiece(Pair(d, e, n)) && IsBody(rest)
    ensures
      var s := Spelling(Pair(d, e, n)) + rest;
      IsBody(s) && Unescaped(s) == Prefixed(ToUnicode(n), Unescaped(rest))
  {
    PairedHalves(n);
    HalvesRead(d, e, 0xD800 + (n - 0x1_0000) / 0x400, 0xDC00 + (n - 0x1_0000) % 0x400, rest);
  }

  lemma PairText(d: bytes, e: bytes, rest: bytes)
    ensures [92, 117] + d + ([92, 117] + e) + rest == [92, 117] + d + ([92, 117] + e + rest)
  {
  }

  /** Every piece is read as what it stands for, whatever follows it. */
  lemma PieceReads(p: Piece, rest: bytes)
    requires IsPiece(p) && IsBody(rest)
    ensures
      var s := Spelling(p) + rest;
      IsBody(s) && Unescaped(s) == Prefixed(Sense(p), Unescaped(rest))
  {
    match p {
      case Plain(c) => assert ([c] + rest)[1..] == rest;
      case Short(letter, c) =>
        ShortMeaning(letter);
        assert ([92, letter] + rest)[2..] == rest;
      case Code(d, n) => CodeUnit(d, n, rest);
      case Pair(d, e, n) => PairReads(d, e, n, rest);
    }
  }

  /** Any pieces, one after the other, are a token, and it is read as what they stand for. */
  lemma {:induction false} PiecesRead(pieces: seq<Piece>)
    requires AllPieces(pieces)
    ensures IsBody(Spellings(pieces)) && Unescaped(Spellings(pieces)) == Good(Senses(pieces))
  {
    if pieces == [] {
    } else {
      PiecesRead(pieces[1..]);
      PieceReads(pieces[0], Spellings(pieces[1..]));
    }
  }

  /** An escape of six bytes, taken apart. */
  lemma CodeParts(s: bytes) returns (d: bytes)
    requires UnitLength(s) == 6
    ensures |d| == 4 && s == [92, 117] + d + s[6..] && Spells(d, Code4(s[2..]))
  {
    d := s[2..6];
    assert s[2..] == d + s[6..];
    SpelledCode(d, Code4(s[2..]), s[6..]);
  }

  lemma HalvesPaired(high: nat, low: nat)
    requires IsHigh(high) && IsLow(low)
    ensures
      var n := Paired(high, low);
      high == 0xD800 + (n - 0x1_0000) / 0x400 && low == 0xDC00 + (n - 0x1_0000) % 0x400
  {
    var n := Paired(high, low);
    assert n - 0x1_0000 == 0x400 * (high - 0xD800) + (low - 0xDC00);
  }

  lemma PairIsPiece(d: bytes, e: bytes, high: nat, low: nat)
    requires |d| == |e| == 4 && Spells(d, high) && Spells(e, low) && IsHigh(high) && IsLow(low)
    ensures IsPiece(Pair(d, e, Paired(high, low)))
  {
    HalvesPaired(high, low);
  }

  lemma FirstPair(s: bytes) returns (p: Piece)
    requires UnitLength(s) == 6 && IsHigh(Code4(s[2..])) && UnitLength(s[6..]) == 6 && IsLow(Code4(s[6..][2..]))
    ensures IsPiece(p) && s == Spelling(p) + s[6..][6..]
  {
    var d := CodeParts(s);
    var e := CodeParts(s[6..]);
    PairIsPiece(d, e, Code4(s[2..]), Code4(s[6..][2..]));
    PairText(d, e, s[6..][6..]);
    p := Pair(d, e, Paired(Code4(s[2..]), Code4(s[6..][2..])));
  }

  /** The first piece of a token that does not begin with a lone half. */
  lemma FirstUnit(s: bytes) returns (p: Piece, rest: bytes)
    requires IsBody(s) && s != []
    requires UnitLength(s) == 6 && IsHigh(Code4(s[2..])) ==> UnitLength(s[6..]) == 6 && IsLow(Code4(s[6..][2..]))
    ensures IsPiece(p) && s == Spelling(p) + rest && IsBody(rest) && |rest| < |s|
    ensures Unescaped(s).Good? <==> Unescaped(rest).Good?
  {
    var n := UnitLength(s);
    rest := s[n..];
    if n == 1 {
      p := Plain(s[0]);
    } else if n == 2 {
      ShortMeaning(s[1]);
      p := Short(s[1], Meaning(s[1]));
    } else if IsHigh(Code4(s[2..])) {
      p := FirstPair(s);
      rest := rest[6..];
    } else {
      var d := CodeParts(s);
      p := Code(d, Code4(s[2..]));
    }
  }

  /** Conversely a token that is read without an error consists of pieces. */
  lemma {:induction false} ReadInPieces(s: bytes) returns (pieces: seq<Piece>)
    requires IsBody(s) && Unescaped(s).Good?
    ensures AllPieces(pieces)
    ensures Spellings(pieces) == s && Senses(pieces) == Unescaped(s).text
    decreases |s|
  {
    if s == [] {
      pieces := [];
    } else {
      var p, rest := FirstUnit(s);
      pieces := ReadInPieces(rest);
      PieceReads(p, rest);
      pieces := [p] + pieces;
    }
  }

  /** A token is read as `text` exactly if it can be cut into pieces that stand for `text`. */
  lemma ReadsExactly(s: bytes, text: bytes)
    ensures IsBody(s) && Unescaped(s) == Good(text) <==>
      exists pieces :: AllPieces(pieces) && Spellings(pieces) == s && Senses(pieces) == text
  {
    if IsBody(s) && Unescaped(s) == Good(text) {
      var pieces := ReadInPieces(s);
    }
    forall pieces | AllPieces(pieces) && Spellings(pieces) == s
      ensures IsBody(s) && Unescaped(s) == Good(Senses(pieces))
    {
      PiecesRead(pieces);
    }
  }

  /** `s` begins with an escape for a number between `low` and `high`. */
  ghost predicate Begins(s: bytes, low: nat, high: nat) {
    exists n: nat :: low <= n < high && |s| >= 6 && s[..2] == [92, 117] && Spells(s[2..6], n)
  }

  /** `s` begins with the first half of a code point that the second half does not follow. */
  ghost predicate BeginsLone(s: bytes) {
    Begins(s, 0xD800, 0xDC00) && !Begins(s[6..], 0xDC00, 0xE000)
  }

  lemma BeginsUnit(s: bytes, low: nat, high: nat)
    ensures Begins(s, low, high) <==> UnitLength(s) == 6 && low <= Code4(s[2..]) < high
  {
    if UnitLength(s) == 6 {
      assert s[..2] == [92, 117] && s[2..] == s[2..6] + s[6..];
      SpelledCode(s[2..6], Code4(s[2..]), s[6..]);
    }
    if Begins(s, low, high) {
      var n: nat :| low <= n < high && |s| >= 6 && s[..2] == [92, 117] && Spells(s[2..6], n);
      CodeUnit(s[2..6], n, s[6..]);
      assert s == [92, 117] + s[2..6] + s[6..];
    }
  }

  lemma LoneFails(s: bytes)
    requires IsBody(s) && BeginsLone(s)
    ensures Unescaped(s).Bad?
  {
    BeginsUnit(s, 0xD800, 0xDC00);
    BeginsUnit(s[6..], 0xDC00, 0xE000);
  }

  /** A token whose pieces end before a lone half is not read. */
  lemma {:induction false} PiecesFail(pieces: seq<Piece>, rest: bytes)
    requires AllPieces(pieces) && IsBody(rest) && BeginsLone(rest)
    ensures IsBody(Spellings(pieces) + rest) && Unescaped(Spellings(pieces) + rest).Bad?
  {
    if pieces == [] {
      assert Spellings(pieces) + rest == rest;
      LoneFails(rest);
    } else {
      PiecesFail(pieces[1..], rest);
      PieceReads(pieces[0], Spellings(pieces[1..]) + rest);
      Assoc(Spelling(pieces[0]), Spellings(pieces[1..]), rest);
    }
  }

  /** What stands in front of the first error. */
  lemma {:induction false} FailsAfter(s: bytes) returns (pieces: seq<Piece>, rest: bytes)
    requires IsBody(s) && Unescaped(s).Bad?
    ensures AllPieces(pieces) && s == Spellings(pieces) + rest && IsBody(rest) && BeginsLone(rest)
    decreases |s|
  {
    BeginsUnit(s, 0xD800, 0xDC00);
    if |s| >= 6 { BeginsUnit(s[6..], 0xDC00, 0xE000); }
    if BeginsLone(s) {
      pieces, rest := [], s;
    } else {
      var p, behind := FirstUnit(s);
      pieces, rest := FailsAfter(behind);
      Assoc(Spelling(p), Spellings(pieces), rest);
      pieces := [p] + pieces;
    }
  }

  /** A token is refused exactly if, behind some pieces, a first half is not followed by a second one. */
  lemma FailsExactly(s: bytes)
    requires IsBody(s)
    ensures Unescaped(s).Bad? <==>
      exists pieces, rest :: AllPieces(pieces) && IsBody(rest) && BeginsLone(rest) && s == Spellings(pieces) + rest
  {
    if Unescaped(s).Bad? {
      var pieces, rest := FailsAfter(s);
    }
    forall pieces, rest | AllPieces(pieces) && IsBody(rest) && BeginsLone(rest) && s == Spellings(pieces) + rest
      ensures Unescaped(s).Bad?
    {
      PiecesFail(pieces, rest);
    }
  }

  /** How each byte is escaped: a short escape if there is one (the slash has none), four lower-case digits for the
      other control bytes, and else the byte itself. */
  lemma EscapeForm(c: byte)
    ensures forall letter: byte :: (letter, c) in SHORTS && c != 47 ==> EscapeByte(c) == [92, letter]
    ensures c < 0x20 && c !in {8, 9, 10, 12, 13} ==> EscapeByte(c) == [92, 117, 48, 48, LOWER[c / 16], LOWER[c % 16]]
    ensures c >= 0x20 && c != 34 && c != 92 ==> EscapeByte(c) == [c]
  {
  }
}
