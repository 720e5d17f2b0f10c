/** Numbers as section 6 of RFC 7159 defines them: what the scanner takes for one, and what it is converted to. */
module JsonNumbers {
  import opened Bson
  import opened JsonStrings
  import opened Json

  /** The parts of a number; no fraction and no exponent are empty. */
  datatype Figure = Figure(negative: bool, whole: bytes, fraction: bytes, exponent: bytes)

  /** A letter, a sign or none, and at least one digit. */
  predicate IsExponent(e: bytes) {
    e == [] ||
    (|e| >= 2 && e[0] in {69, 101} &&
    (if e[1] in {43, 45} then |e| > 2 && AllDigits(e[2..]) else AllDigits(e[1..])))
  }

  /** The whole part has digits, and no zero in front of another one. */
  predicate IsFigure(f: Figure) {
    && f.whole != [] && AllDigits(f.whole) && (f.whole[0] == 48 ==> |f.whole| == 1)
    && AllDigits(f.fraction) && IsExponent(f.exponent)
  }

  function Minus(f: Figure): bytes { if f.negative then [45] else [] }

  function Point(f: Figure): bytes { if f.fraction == [] then [] else [46] + f.fraction }

  function FigureText(f: Figure): bytes { Minus(f) + (f.whole + (Point(f) + f.exponent)) }

  /** An integer in 64 bits is read exactly; all else is a floating-point number. */
  function FigureValue(f: Figure): Json
    requires IsFigure(f)
  {
    var n: int := DigitsValue(f.whole);
    if f.fraction != [] || f.exponent != [] then Float(FigureText(f))
    else if f.negative && n <= 0x8000_0000_0000_0000 then Integer(-n)
    else if !f.negative && n < 0x1_0000_0000_0000_0000 then Unsigned(n)
    else Float(FigureText(f))
  }

  /** What may follow a number without being taken for a part of it. */
  predicate Fits(s: bytes) { s == [] || !(48 <= s[0] <= 57 || s[0] in {46, 69, 101}) }

  predicate NoDigit(s: bytes) { s == [] || !IsDigit(s[0]) }

  // ---- From the parts to the token.

  lemma ExponentRead(e: bytes, rest: bytes)
    requires IsExponent(e) && Fits(rest)
    ensures ExponentLength(e + rest) == |e|
  {
    var s := e + rest;
    if e == [] {
      assert s == rest;
    } else {
      var k := if e[1] in {43, 45} then 2 else 1;
      assert s[k..] == e[k..] + rest && s[k] == e[k..][0];
      RunAtLeast(e[k..], rest);
    }
  }

  lemma FractionRead(f: Figure, rest: bytes)
    requires IsFigure(f) && NoDigit(rest) && (f.fraction == [] ==> rest == [] || rest[0] != 46)
    ensures FractionLength(Point(f) + rest) == |Point(f)|
  {
    var s := Point(f) + rest;
    if f.fraction == [] {
      assert s == rest;
    } else {
      assert s[1..] == f.fraction + rest && s[1] == f.fraction[0];
      RunAtLeast(f.fraction, rest);
    }
  }

  lemma WholeRead(f: Figure, rest: bytes)
    requires IsFigure(f) && (f.whole[0] != 48 ==> NoDigit(rest))
    ensures IntLength(Minus(f) + (f.whole + rest)) == |Minus(f)| + |f.whole|
    ensures AfterSign(Minus(f) + (f.whole + rest)) == f.whole + rest
  {
    var s := Minus(f) + (f.whole + rest);
    assert (f.whole + rest)[0] == f.whole[0];
    if f.negative {
      assert s[1..] == f.whole + rest;
    } else {
      assert s == f.whole + rest;
    }
    if f.whole[0] != 48 { RunAtLeast(f.whole, rest); }
  }

  lemma ThreeLengths(s: bytes, a: bytes, b: bytes, c: bytes, rest: bytes)
    requires s == a + (b + (c + rest))
    requires a != [] && IntLength(s) == |a| && FractionLength(b + (c + rest)) == |b| && ExponentLength(c + rest) == |c|
    ensures NumberLength(s) == |a| + |b| + |c|
  {
    assert s[|a|..] == b + (c + rest);
    assert s[|a| + |b|..] == c + rest;
  }

  lemma FigureRegroup(f: Figure, rest: bytes)
    ensures FigureText(f) + rest == Minus(f) + (f.whole + (Point(f) + (f.exponent + rest)))
    ensures FigureText(f) + rest == Minus(f) + f.whole + (Point(f) + (f.exponent + rest))
    ensures |FigureText(f)| == |Minus(f)| + |f.whole| + |Point(f)| + |f.exponent|
  {
  }

  /** A number is scanned to its end. */
  lemma FigureScanned(f: Figure, rest: bytes)
    requires IsFigure(f) && Fits(rest)
    ensures NumberLength(FigureText(f) + rest) == |FigureText(f)|
  {
    var tail := f.exponent + rest;
    FigureRegroup(f, rest);
    assert tail == [] || tail[0] == (if f.exponent == [] then rest else f.exponent)[0];
    ExponentRead(f.exponent, rest);
    FractionRead(f, tail);
    var more := Point(f) + tail;
    assert more == [] || more[0] == (if f.fraction == [] then tail else Point(f))[0];
    WholeRead(f, more);
    ThreeLengths(FigureText(f) + rest, Minus(f) + f.whole, Point(f), f.exponent, rest);
  }

  /** It is converted to its value, or refused because a digit follows. */
  lemma FigureConverted(f: Figure, rest: bytes)
    requires IsFigure(f)
    ensures GetNumber(FigureText(f), rest) == Whole(FigureValue(f)) || GetNumber(FigureText(f), rest).Wrong?
    ensures Fits(rest) ==> GetNumber(FigureText(f), rest).Whole?
  {
    var text, more := FigureText(f), Point(f) + (f.exponent + rest);
    FigureRegroup(f, rest);
    SignOf(f, more);
    if f.fraction != [] || f.exponent != [] {
      assert more[0] == (if f.fraction == [] then f.exponent else Point(f))[0];
      RunAtLeast(f.whole, more);
    } else {
      assert more == rest;
      RunAtLeast(f.whole, rest);
      if NoDigit(rest) {
        RunAtLeast(f.whole, rest);
        assert (f.whole + rest)[..|f.whole|] == f.whole;
      }
    }
  }

  lemma SignOf(f: Figure, rest: bytes)
    requires IsFigure(f)
    ensures
      var s := Minus(f) + (f.whole + rest);
      AfterSign(s) == f.whole + rest && (s != f.whole + rest <==> f.negative)
  {
    var s := Minus(f) + (f.whole + rest);
    assert (f.whole + rest)[0] == f.whole[0];
    if f.negative {
      assert s[1..] == f.whole + rest && |s| != |f.whole + rest|;
    } else {
      assert s == f.whole + rest;
    }
  }

  lemma {:induction false} RunAtLeast(d: bytes, s: bytes)
    requires AllDigits(d)
    ensures DigitRun(d + s) >= |d| && (DigitRun(d + s) == |d| <==> NoDigit(s))
  {
    if d == [] {
      assert d + s == s;
    } else {
      RunAtLeast(d[1..], s);
      assert (d + s)[1..] == d[1..] + s;
    }
  }

  // ---- From the token to the parts.

  lemma ExponentFound(s: bytes)
    ensures IsExponent(s[..ExponentLength(s)])
  {
    var n := ExponentLength(s);
    var e := s[..n];
    if n > 0 {
      var k := if s[1] == 43 || s[1] == 45 then 2 else 1;
      RunIsDigits(s[k..]);
      assert e[k..] == s[k..][..n - k];
    }
  }

  lemma FractionFound(s: bytes) returns (d: bytes)
    ensures AllDigits(d) && s[..FractionLength(s)] == if d == [] then [] else [46] + d
  {
    var n := FractionLength(s);
    d := if n == 0 then [] else s[1..n];
    if n > 0 {
      RunIsDigits(s[1..]);
      assert d == s[1..][..n - 1];
    }
  }

  lemma WholeFound(s: bytes) returns (negative: bool, d: bytes)
    requires IntLength(s) > 0
    ensures d != [] && AllDigits(d) && (d[0] == 48 ==> |d| == 1)
    ensures s[..IntLength(s)] == (if negative then [45] else []) + d
  {
    var t, n := AfterSign(s), IntLength(s);
    negative := s[0] == 45;
    var sign := if negative then 1 else 0;
    d := s[sign..n];
    RunIsDigits(t);
    assert d == t[..n - sign];
  }

  lemma Sliced(s: bytes, n: nat, m: nat, k: nat)
    requires n + m + k <= |s|
    ensures s[..n + m + k] == s[..n] + (s[n..][..m] + s[n + m..][..k])
  {
    var a, b, c := s[..n], s[n..][..m], s[n + m..][..k];
    assert |a + (b + c)| == n + m + k;
    assert forall i :: n <= i < n + m ==> b[i - n] == s[i];
    assert forall i :: n + m <= i < n + m + k ==> c[i - n - m] == s[i];
  }

  lemma FigureJoined(f: Figure, a: bytes, b: bytes, c: bytes)
    requires f.whole != [] && AllDigits(f.whole) && (f.whole[0] == 48 ==> |f.whole| == 1) && AllDigits(f.fraction)
    requires a == (if f.negative then [45] else []) + f.whole
    requires b == (if f.fraction == [] then [] else [46] + f.fraction) && c == f.exponent && IsExponent(c)
    ensures IsFigure(f) && FigureText(f) == a + (b + c)
  {
    Assoc(Minus(f), f.whole, Point(f) + f.exponent);
  }

  lemma NumberSum(s: bytes, n: nat, m: nat, k: nat)
    requires n == IntLength(s) > 0 && m == FractionLength(s[n..]) && k == ExponentLength(s[n + m..])
    ensures NumberLength(s) == n + m + k
  {
  }

  /** What is scanned as a number is one. */
  lemma FigureFound(s: bytes) returns (f: Figure)
    requires NumberLength(s) > 0
    ensures IsFigure(f) && FigureText(f) == s[..NumberLength(s)]
  {
    var n := IntLength(s);
    var m := FractionLength(s[n..]);
    var k := ExponentLength(s[n + m..]);
    var negative, whole := WholeFound(s);
    var fraction := FractionFound(s[n..]);
    ExponentFound(s[n + m..]);
    f := Figure(negative, whole, fraction, s[n + m..][..k]);
    NumberSum(s, n, m, k);
    Sliced(s, n, m, k);
    FigureJoined(f, s[..n], s[n..][..m], s[n + m..][..k]);
  }
}
