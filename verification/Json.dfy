/** The JSON library: values, their text, and the parser that reads it. */
module Json {
  import opened Bson
  import opened JsonStrings

  /** A floating-point number stays the text of its token. */
  datatype Json =
    | Null
    | Boolean(on: bool)
    | Integer(i: int)
    | Unsigned(n: nat)
    | Float(text: bytes)
    | String(text: bytes)
    | Array(items: seq<Json>)
    | Object(members: seq<Member>)

  datatype Member = Member(key: bytes, value: Json)

  /** The order of the keys of an object. */
  predicate Precedes(a: bytes, b: bytes) {
    if b == [] then false else if a == [] then true
    else a[0] < b[0] || (a[0] == b[0] && Precedes(a[1..], b[1..]))
  }

  predicate Ascending(members: seq<Member>) {
    forall i, j :: 0 <= i < j < |members| ==> Precedes(members[i].key, members[j].key)
  }

  /** No floating-point numbers, integers in 64 bits, and the members of objects in the order of their keys. */
  predicate FloatFree(j: Json) {
    match j
    case Integer(i) => -0x8000_0000_0000_0000 <= i < 0x8000_0000_0000_0000
    case Unsigned(n) => n < 0x1_0000_0000_0000_0000
    case Float(_) => false
    case Array(items) => forall k :: 0 <= k < |items| ==> FloatFree(items[k])
    case Object(members) => Ascending(members) && forall k :: 0 <= k < |members| ==> FloatFree(members[k].value)
    case _ => true
  }

  /** A 64-bit unsigned number cast to a signed one. */
  function AsSigned(n: nat): int { if n < 0x8000_0000_0000_0000 then n else n - 0x1_0000_0000_0000_0000 }

  /** `operator==`, with an unsigned number cast to be compared to a signed one. */
  predicate Equal(a: Json, b: Json) {
    match (a, b)
    case (Integer(i), Unsigned(n)) => i == AsSigned(n)
    case (Unsigned(n), Integer(i)) => AsSigned(n) == i
    case (Float(_), _) => false
    case (Array(s), Array(t)) => |s| == |t| && forall k :: 0 <= k < |s| ==> Equal(s[k], t[k])
    case (Object(s), Object(t)) =>
      |s| == |t| && forall k :: 0 <= k < |s| ==> s[k].key == t[k].key && Equal(s[k].value, t[k].value)
    case _ => a == b
  }

  // ---- Dumping.

  const SPACE: byte := 32
  const NEWLINE: byte := 10

  function Spaces(n: nat): bytes { seq(n, _ => SPACE) }

  /** How a text is laid out: the step is zero if it is not pretty. */
  datatype Layout = Layout(pretty: bool, step: nat)

  function Line(layout: Layout): bytes { if layout.pretty then [NEWLINE] else [] }

  /** Indentation is counted in 32 bits. */
  function Deeper(layout: Layout, indent: nat): nat {
    if layout.pretty then (indent + layout.step) % 0x1_0000_0000 else indent
  }

  function Quoted(s: bytes): bytes { [QUOTE] + Escaped(s) + [QUOTE] }

  function Decimal(i: int): bytes { if i < 0 then [45] + Digits(-i) else Digits(i) }

  function Dump(j: Json, layout: Layout, indent: nat): bytes
    decreases j, 0
  {
    match j
    case Null => [110, 117, 108, 108]
    case Boolean(on) => if on then [116, 114, 117, 101] else [102, 97, 108, 115, 101]
    case Integer(i) => Decimal(i)
    case Unsigned(n) => Digits(n)
    case Float(text) => text
    case String(text) => Quoted(text)
    case Array(items) =>
      if items == [] then [91, 93] else
        var inner := DumpItems(items, layout, Deeper(layout, indent));
        [91] + Line(layout) + inner + Line(layout) + Spaces(indent) + [93]
    case Object(members) =>
      if members == [] then [123, 125] else
        var inner := DumpMembers(members, layout, Deeper(layout, indent));
        [123] + Line(layout) + inner + Line(layout) + Spaces(indent) + [125]
  }

  function DumpItems(items: seq<Json>, layout: Layout, indent: nat): bytes
    decreases items, |items|
  {
    if items == [] then [] else
      var first := Spaces(indent) + Dump(items[0], layout, indent);
      if |items| == 1 then first else first + ([44] + Line(layout) + DumpItems(items[1..], layout, indent))
  }

  function DumpMembers(members: seq<Member>, layout: Layout, indent: nat): bytes
    decreases members, |members|
  {
    if members == [] then [] else
      var colon := [58] + (if layout.pretty then [SPACE] else []);
      var first := Spaces(indent) + Quoted(members[0].key) + (colon + Dump(members[0].value, layout, indent));
      if |members| == 1 then first else first + ([44] + Line(layout) + DumpMembers(members[1..], layout, indent))
  }

  // ---- Scanning.

  datatype Token =
    | LiteralTrue
    | LiteralFalse
    | LiteralNull
    | ValueString(body: bytes)
    | ValueNumber(text: bytes, behind: bytes)
    | BeginArray
    | BeginObject
    | EndArray
    | EndObject
    | NameSeparator
    | ValueSeparator
    | ParseError
    | EndOfInput

  predicate IsWhite(c: byte) { c == 32 || c == 9 || c == 10 || c == 13 }

  /** The number of digits that `s` begins with. */
  function DigitRun(s: bytes): (n: nat)
    ensures n <= |s|
  {
    if s == [] || !IsDigit(s[0]) then 0 else 1 + DigitRun(s[1..])
  }

  /** The length of the string body that `s` begins with, up to a quote, or none. */
  function BodyLength(s: bytes): (n: int)
    ensures -1 <= n < |s| || n == -1
    ensures n >= 0 ==> s[n] == QUOTE && IsBody(s[..n])
    decreases |s|
  {
    if s == [] then -1
    else if s[0] == QUOTE then 0
    else
      var k := UnitLength(s);
      if k == 0 then -1 else
        var n := BodyLength(s[k..]);
        if n < 0 then -1 else
          BodyGrows(s, k, n);
          k + n
  }

  lemma SliceSlice(s: bytes, k: nat, n: nat)
    requires k + n <= |s|
    ensures s[..k + n][k..] == s[k..][..n]
  {
  }

  lemma BodyGrows(s: bytes, k: nat, n: nat)
    requires s != [] && k == UnitLength(s) > 0 && k + n < |s| && IsBody(s[k..][..n])
    ensures IsBody(s[..k + n])
  {
    var t := s[..k + n];
    SliceSlice(s, k, n);
    if k == 6 {
      SliceSlice(s, 2, 4 + n);
      assert Hex4(t[2..]);
    }
  }

  /** The length of the integer that `s` begins with: no digit follows a leading zero. */
  function IntLength(s: bytes): (n: nat)
    ensures n <= |s|
  {
    var t := AfterSign(s);
    var sign := |s| - |t|;
    if t == [] || !IsDigit(t[0]) then 0 else if t[0] == 48 then sign + 1 else sign + DigitRun(t)
  }

  function AfterSign(s: bytes): (t: bytes)
    ensures |s| - 1 <= |t| <= |s|
  {
    if s != [] && s[0] == 45 then s[1..] else s
  }

  function FractionLength(s: bytes): (n: nat)
    ensures n <= |s|
  {
    if |s| >= 2 && s[0] == 46 && IsDigit(s[1]) then 1 + DigitRun(s[1..]) else 0
  }

  function ExponentLength(s: bytes): (n: nat)
    ensures n <= |s|
  {
    if |s| < 2 || (s[0] != 69 && s[0] != 101) then 0 else
      var k := if s[1] == 43 || s[1] == 45 then 2 else 1;
      if k < |s| && IsDigit(s[k]) then k + DigitRun(s[k..]) else 0
  }

  function NumberLength(s: bytes): (n: nat)
    ensures n <= |s|
  {
    var n := IntLength(s);
    if n == 0 then 0 else
      var m := n + FractionLength(s[n..]);
      m + ExponentLength(s[m..])
  }

  /** The last token and the text behind it. */
  datatype Lexed = Lexed(token: Token, rest: bytes)

  function Literal(s: bytes, word: bytes, token: Token): Lexed
    requires s != []
  {
    if word <= s then Lexed(token, s[|word|..]) else Lexed(ParseError, s[1..])
  }

  function Punctuation(c: byte): Token {
    if c == 91 then BeginArray
    else if c == 93 then EndArray
    else if c == 123 then BeginObject
    else if c == 125 then EndObject
    else if c == 58 then NameSeparator
    else if c == 44 then ValueSeparator
    else ParseError
  }

  /** The rest of a string token, behind its first quote. */
  function ScanString(s: bytes): (r: Lexed)
    ensures |r.rest| <= |s|
  {
    var n := BodyLength(s);
    if n < 0 then Lexed(ParseError, s) else Lexed(ValueString(s[..n]), s[n + 1..])
  }

  function ScanNumber(s: bytes): (r: Lexed)
    requires s != []
    ensures |r.rest| < |s|
  {
    var n := NumberLength(s);
    if n == 0 then Lexed(ParseError, s[1..]) else Lexed(ValueNumber(s[..n], s[n..]), s[n..])
  }

  /** The next token.  White space and byte order marks are skipped; a zero byte ends the input. */
  function Scan(s: bytes): (r: Lexed)
    ensures r.token.EndOfInput? || |r.rest| < |s|
    decreases |s|
  {
    if s == [] then Lexed(EndOfInput, [])
    else if s[0] == 0 then Lexed(EndOfInput, s[1..])
    else if IsWhite(s[0]) then Scan(s[1..])
    else if s[0] == 0xEF && [0xEF, 0xBB, 0xBF] <= s then Scan(s[3..])
    else if s[0] == 110 then Literal(s, [110, 117, 108, 108], LiteralNull)
    else if s[0] == 116 then Literal(s, [116, 114, 117, 101], LiteralTrue)
    else if s[0] == 102 then Literal(s, [102, 97, 108, 115, 101], LiteralFalse)
    else if s[0] == QUOTE then ScanString(s[1..])
    else if s[0] == 45 || IsDigit(s[0]) then ScanNumber(s)
    else Lexed(Punctuation(s[0]), s[1..])
  }

  // ---- Parsing.

  datatype Parsed = Done(value: Json, at: Lexed) | Failed

  datatype Number = Whole(value: Json) | Wrong

  lemma {:induction false} RunIsDigits(s: bytes)
    ensures forall k :: 0 <= k < DigitRun(s) ==> IsDigit(s[k])
  {
    if s == [] || !IsDigit(s[0]) {
    } else {
      RunIsDigits(s[1..]);
      assert forall k :: 1 <= k < DigitRun(s) ==> s[k] == s[1..][k - 1];
    }
  }

  /** The digits are converted as far as they go, even beyond the token.  What is not an integer in range is read as
      a floating-point number, which must end with the token. */
  function GetNumber(text: bytes, behind: bytes): Number {
    var s := text + behind;
    var t := AfterSign(s);
    var n := |s| - |t| + DigitRun(t);
    RunIsDigits(t);
    if n > |text| then Wrong
    else if n < |text| then Whole(Float(text))
    else Whole(Converted(t != s, DigitsValue(t[..DigitRun(t)]), text))
  }

  function Converted(negative: bool, value: int, text: bytes): Json
    requires value >= 0
  {
    if negative then (if value <= 0x8000_0000_0000_0000 then Integer(-value) else Float(text))
    else if value < 0x1_0000_0000_0000_0000 then Unsigned(value) else Float(text)
  }

  /** Assigns to a key of an object. */
  function Put(members: seq<Member>, key: bytes, value: Json): seq<Member> {
    if members == [] then [Member(key, value)]
    else if members[0].key == key then [Member(key, value)] + members[1..]
    else if Precedes(key, members[0].key) then [Member(key, value)] + members
    else [members[0]] + Put(members[1..], key, value)
  }

  /** How much is left to read. */
  function Left(at: Lexed): nat { if at.token.EndOfInput? then 0 else |at.rest| + 1 }

  function ParseValue(at: Lexed): (r: Parsed)
    ensures r.Done? ==> Left(r.at) < Left(at)
    decreases Left(at), 0
  {
    match at.token
    case BeginObject =>
      var next := Scan(at.rest);
      if next.token.EndObject? then Done(Object([]), Scan(next.rest))
      else if next.token.ValueSeparator? then Failed
      else ParseMembers([], next)
    case BeginArray =>
      var next := Scan(at.rest);
      if next.token.EndArray? then Done(Array([]), Scan(next.rest))
      else if next.token.ValueSeparator? then Failed
      else ParseItems([], next)
    case LiteralNull => Done(Null, Scan(at.rest))
    case LiteralTrue => Done(Boolean(true), Scan(at.rest))
    case LiteralFalse => Done(Boolean(false), Scan(at.rest))
    case ValueString(body) =>
      if !IsBody(body) || Unescaped(body).Bad? then Failed else Done(String(Unescaped(body).text), Scan(at.rest))
    case ValueNumber(text, behind) =>
      var number := GetNumber(text, behind);
      if number.Wrong? then Failed else Done(number.value, Scan(at.rest))
    case _ => Failed
  }

  function ParseItems(items: seq<Json>, at: Lexed): (r: Parsed)
    ensures r.Done? ==> Left(r.at) < Left(at)
    decreases Left(at), 1
  {
    var r := ParseValue(at);
    if r.Failed? then Failed
    else if r.at.token.ValueSeparator? then ParseItems(items + [r.value], Scan(r.at.rest))
    else if r.at.token.EndArray? then Done(Array(items + [r.value]), Scan(r.at.rest))
    else Failed
  }

  function ParseMembers(members: seq<Member>, at: Lexed): (r: Parsed)
    ensures r.Done? ==> Left(r.at) < Left(at)
    decreases Left(at), 1
  {
    if !at.token.ValueString? || !IsBody(at.token.body) || Unescaped(at.token.body).Bad? then Failed else
      var key := Unescaped(at.token.body).text;
      var colon := Scan(at.rest);
      if !colon.token.NameSeparator? then Failed else
        var r := ParseValue(Scan(colon.rest));
        if r.Failed? then Failed else
          var more := Put(members, key, r.value);
          if r.at.token.ValueSeparator? then ParseMembers(more, Scan(r.at.rest))
          else if r.at.token.EndObject? then Done(Object(more), Scan(r.at.rest))
          else Failed
  }

  datatype Document = Document(value: Json) | Malformed

  function Parse(s: bytes): Document {
    var r := ParseValue(Scan(s));
    if r.Done? && r.at.token.EndOfInput? then Document(r.value) else Malformed
  }

  // ---- The round trip.

  /** What is read back: a signed number that is not negative comes back unsigned. */
  function Normal(j: Json): Json {
    match j
    case Integer(i) => if i >= 0 then Unsigned(i) else j
    case Array(items) => Array(seq(|items|, k requires 0 <= k < |items| => Normal(items[k])))
    case Object(members) =>
      Object(seq(|members|, k requires 0 <= k < |members| => Member(members[k].key, Normal(members[k].value))))
    case _ => j
  }

  lemma {:induction false} NormalEqual(j: Json)
    requires FloatFree(j)
    ensures Equal(Normal(j), j)
  {
    match j {
      case Array(items) =>
        forall k | 0 <= k < |items| ensures Equal(Normal(items[k]), items[k]) {
          NormalEqual(items[k]);
        }
      case Object(members) =>
        forall k | 0 <= k < |members| ensures Equal(Normal(members[k].value), members[k].value) {
          NormalEqual(members[k].value);
        }
      case _ =>
    }
  }
}
