/** Documents and their bytes in the format of the BSON specification 1.1. */
module Bson {

  type byte = x: int | 0 <= x < 256

  type bytes = seq<byte>

  const EOO: byte := 0
  const ARRAY: byte := 4
  const OBJECT: byte := 3
  const BIN_DATA: byte := 5
  const UNDEFINED: byte := 6
  const OID: byte := 7
  const BOOL: byte := 8
  const NULL: byte := 10
  const REG_EX: byte := 11
  const DB_REF: byte := 12
  const CODE_W_SCOPE: byte := 15
  const INT32: byte := 16
  const MAX_KEY: byte := 127
  const MIN_KEY: byte := 255

  /** Values, grouped by the way their bytes are laid out; `kind` is the type byte where several share a layout. */
  datatype Value =
    | Bare(kind: byte)
    | Flag(on: bool)
    | Fixed(kind: byte, raw: bytes)
    | Text(kind: byte, text: bytes)
    | Ref(text: bytes, oid: bytes)
    | Binary(sub: byte, raw: bytes)
    | Regex(pattern: bytes, options: bytes)
    | Scoped(raw: bytes)
    | Arr(items: seq<Value>)
    | Obj(fields: seq<Field>)

  datatype Field = Field(name: bytes, value: Value)

  function Width(kind: byte): nat {
    if kind == INT32 then 4 else if kind == OID then 12 else if kind in {1, 9, 17, 18} then 8 else 0
  }

  predicate IsBare(kind: byte) { kind in {UNDEFINED, NULL, MAX_KEY, MIN_KEY} }

  predicate IsText(kind: byte) { kind in {2, 13, 14} }

  function Kind(v: Value): byte {
    match v
    case Bare(k) => k
    case Flag(_) => BOOL
    case Fixed(k, _) => k
    case Text(k, _) => k
    case Ref(_, _) => DB_REF
    case Binary(_, _) => BIN_DATA
    case Regex(_, _) => REG_EX
    case Scoped(_) => CODE_W_SCOPE
    case Arr(_) => ARRAY
    case Obj(_) => OBJECT
  }

  const LIMIT: nat := 0x7FFF_FFFF

  /** Well-formed values: known types, lengths in range, and no zero byte inside names and the parts of a pattern. */
  predicate Wf(v: Value) {
    match v
    case Bare(k) => IsBare(k)
    case Flag(_) => true
    case Fixed(k, raw) => Width(k) > 0 && |raw| == Width(k)
    case Text(k, s) => IsText(k) && |s| < LIMIT
    case Ref(s, oid) => |s| < LIMIT && |oid| == 12
    case Binary(_, raw) => |raw| <= LIMIT
    case Regex(p, o) => 0 !in p && 0 !in o
    case Scoped(raw) => |raw| + 4 <= LIMIT
    case Arr(items) => |items| <= LIMIT && forall i :: 0 <= i < |items| ==> Wf(items[i])
    case Obj(fields) => WfFields(fields)
  }

  predicate WfFields(fields: seq<Field>) {
    forall i :: 0 <= i < |fields| ==> 0 !in fields[i].name && Wf(fields[i].value)
  }

  /** A 32-bit number, low byte first. */
  function Le32(n: nat): bytes {
    [n % 256, n / 256 % 256, n / 0x1_0000 % 256, n / 0x100_0000 % 256]
  }

  function Read32(s: bytes): nat
    requires |s| >= 4
  {
    var a: int, b: int, c: int, d: int := s[0], s[1], s[2], s[3];
    a + 256 * b + 0x1_0000 * c + 0x100_0000 * d
  }

  lemma Le32RoundTrip(n: nat, rest: bytes)
    requires n < 0x1_0000_0000
    ensures |Le32(n)| == 4 && Read32(Le32(n) + rest) == n
  {
    var q1 := n / 256;
    var q2 := q1 / 256;
    var q3 := q2 / 256;
    assert n == 256 * q1 + n % 256 && q1 == 256 * q2 + q1 % 256 && q2 == 256 * q3 + q2 % 256;
    assert n / 0x1_0000 == q2 && n / 0x100_0000 == q3;
  }

  /** The four bytes are the digits of the number to the base 256, low one first; what does not fit is cut off. */
  lemma Le32Value(n: nat)
    ensures
      var s := Le32(n);
      var a: int, b: int, c: int, d: int := s[0], s[1], s[2], s[3];
      |s| == 4 && a + 0x100 * b + 0x1_0000 * c + 0x100_0000 * d == n % 0x1_0000_0000
  {
    var q1 := n / 0x100;
    var q2 := q1 / 0x100;
    var q3 := q2 / 0x100;
    var q4 := q3 / 0x100;
    assert n == 0x100 * q1 + n % 0x100 && q1 == 0x100 * q2 + q1 % 0x100;
    assert q2 == 0x100 * q3 + q2 % 0x100 && q3 == 0x100 * q4 + q3 % 0x100;
    assert n / 0x1_0000 == q2 && n / 0x100_0000 == q3;
    var low := n % 0x100 + 0x100 * (q1 % 0x100) + 0x1_0000 * (q2 % 0x100) + 0x100_0000 * (q3 % 0x100);
    assert n == 0x1_0000_0000 * q4 + low && 0 <= low < 0x1_0000_0000;
  }

  /** A number is read with the low byte first: its byte number `i` counts 256 to the power of `i`. */
  lemma Read32Value(s: bytes, a: byte, b: byte, c: byte, d: byte)
    ensures Read32([a, b, c, d] + s) == a + 0x100 * b + 0x1_0000 * c + 0x100_0000 * d
  {
    var t := [a, b, c, d] + s;
    assert t[0] == a && t[1] == b && t[2] == c && t[3] == d;
  }

  lemma Le32Inverse(s: bytes)
    requires |s| >= 4
    ensures Le32(Read32(s)) == s[..4]
  {
    var a: int, b: int, c: int, d: int := s[0], s[1], s[2], s[3];
    var n := Read32(s);
    assert n == a + 256 * (b + 256 * (c + 256 * d));
    assert n / 256 == b + 256 * (c + 256 * d);
    assert n / 0x1_0000 == n / 256 / 256 == c + 256 * d;
    assert n / 0x100_0000 == n / 256 / 256 / 256 == d;
    assert s[..4] == [s[0], s[1], s[2], s[3]];
  }

  lemma Le32Differs(m: nat, n: nat)
    requires m < n < 0x1_0000_0000
    ensures Le32(m) != Le32(n)
  {
    Le32RoundTrip(m, []);
    Le32RoundTrip(n, []);
  }

  /** The decimal name of an array index. */
  function Digits(n: nat): bytes {
    if n < 10 then [48 + n] else Digits(n / 10) + [48 + n % 10]
  }

  predicate IsDigit(c: byte) { 48 <= c <= 57 }

  predicate AllDigits(s: bytes) { forall k :: 0 <= k < |s| ==> IsDigit(s[k]) }

  /** The number that decimal digits stand for. */
  function DigitsValue(s: bytes): nat
    requires AllDigits(s)
  {
    if s == [] then 0 else
      assert IsDigit(s[|s| - 1]);
      var last: int := s[|s| - 1];
      10 * DigitsValue(s[..|s| - 1]) + (last - 48)
  }

  /** A number is written in decimal digits, without zeros in front. */
  lemma {:induction false} DigitsMean(n: nat)
    ensures AllDigits(Digits(n)) && DigitsValue(Digits(n)) == n
    ensures 0 < |Digits(n)| && (Digits(n)[0] == 48 ==> n == 0 && |Digits(n)| == 1)
  {
    if n < 10 {
      assert Digits(n)[..0] == [];
    } else {
      DigitsMean(n / 10);
      assert Digits(n)[..|Digits(n)| - 1] == Digits(n / 10);
    }
  }

  /** A document from the bytes of its elements. */
  function Wrap(body: bytes): bytes { Le32(|body| + 5) + body + [EOO] }

  function Named(kind: byte, name: bytes): bytes { [kind] + name + [0] }

  function Payload(v: Value): bytes
    decreases v, 0
  {
    match v
    case Bare(_) => []
    case Flag(on) => [if on then 1 else 0]
    case Fixed(_, raw) => raw
    case Text(_, s) => Le32(|s| + 1) + s + [0]
    case Ref(s, oid) => Le32(|s| + 1) + s + [0] + oid
    case Binary(sub, raw) => Le32(|raw|) + [sub] + raw
    case Regex(p, o) => p + [0] + o + [0]
    case Scoped(raw) => Le32(|raw| + 4) + raw
    case Arr(items) => Wrap(ItemBytes(items, 0))
    case Obj(fields) => Wrap(FieldBytes(fields))
  }

  function ItemBytes(items: seq<Value>, from: nat): bytes
    decreases items, |items|
  {
    if items == [] then []
    else Named(Kind(items[0]), Digits(from)) + Payload(items[0]) + ItemBytes(items[1..], from + 1)
  }

  function FieldBytes(fields: seq<Field>): bytes
    decreases fields, |fields|
  {
    if fields == [] then []
    else Named(Kind(fields[0].value), fields[0].name) + Payload(fields[0].value) + FieldBytes(fields[1..])
  }

  function Document(fields: seq<Field>): bytes { Wrap(FieldBytes(fields)) }

  // ---- Laws of the format.

  /** A document begins with its length, low byte first, and ends with a zero byte. */
  lemma WrapLength(body: bytes)
    ensures
      var s := Wrap(body);
      && |s| == |body| + 5 && s[|s| - 1] == 0
      && s[0] == |s| % 0x100 && s[1] == |s| / 0x100 % 0x100
      && s[2] == |s| / 0x1_0000 % 0x100 && s[3] == |s| / 0x100_0000 % 0x100
    ensures |Wrap(body)| < 0x1_0000_0000 ==> Read32(Wrap(body)) == |Wrap(body)|
  {
    var s := Wrap(body);
    assert s == Le32(|s|) + (body + [EOO]);
    if |s| < 0x1_0000_0000 { Le32RoundTrip(|s|, body + [EOO]); }
  }

  /** The four bytes in front of a document say how long it is, for a record as for a nested object or an array. */
  lemma DocumentLength(fields: seq<Field>)
    requires |Document(fields)| < 0x1_0000_0000
    ensures
      var s := Document(fields);
      var a: int, b: int, c: int, d: int := s[0], s[1], s[2], s[3];
      a + 0x100 * b + 0x1_0000 * c + 0x100_0000 * d == |s| && a == |s| % 0x100
  {
    WrapLength(FieldBytes(fields));
  }

  lemma FieldBytesMore(name: bytes, value: Value, rest: seq<Field>)
    ensures FieldBytes([Field(name, value)] + rest) == [Kind(value)] + name + [0] + Payload(value) + FieldBytes(rest)
  {
    var fields := [Field(name, value)] + rest;
    assert fields[0] == Field(name, value) && fields[1..] == rest;
  }

  lemma ItemBytesMore(value: Value, rest: seq<Value>, from: nat)
    ensures ItemBytes([value] + rest, from) ==
      [Kind(value)] + Digits(from) + [0] + Payload(value) + ItemBytes(rest, from + 1)
  {
    var items := [value] + rest;
    assert items[0] == value && items[1..] == rest;
  }

  const HELLO: bytes := [0x68, 0x65, 0x6C, 0x6C, 0x6F]
  const WORLD: bytes := [0x77, 0x6F, 0x72, 0x6C, 0x64]

  /** The first example of the BSON specification, `{"hello": "world"}`, byte for byte. */
  lemma HelloWorld()
    ensures Document([Field(HELLO, Text(2, WORLD))]) ==
      [0x16, 0, 0, 0] + ([2] + HELLO + [0] + ([6, 0, 0, 0] + WORLD + [0])) + [0]
  {
    OneField(HELLO, Text(2, WORLD));
    assert Le32(|WORLD| + 1) == [6, 0, 0, 0] && Le32(0x16) == [0x16, 0, 0, 0];
  }

  lemma OneField(name: bytes, value: Value)
    ensures FieldBytes([Field(name, value)]) == [Kind(value)] + name + [0] + Payload(value)
  {
    FieldBytesMore(name, value, []);
    assert [Field(name, value)] + [] == [Field(name, value)];
    assert [Kind(value)] + name + [0] + Payload(value) + [] == [Kind(value)] + name + [0] + Payload(value);
  }

  lemma ShortLength(n: nat)
    requires n < 0x100
    ensures Le32(n) == [n, 0, 0, 0]
  {
  }

  /** The other types, as sections "element" and "binary" of the specification lay them out; `a` is short enough for a
      length of one byte. */
  lemma Elements(name: bytes, a: bytes, b: bytes, sub: byte, on: bool)
    requires |a| < 0xF0
    ensures FieldBytes([Field(name, Flag(on))]) == [8] + name + [0] + [if on then 1 else 0]
    ensures FieldBytes([Field(name, Bare(10))]) == [10] + name + [0] + []
    ensures FieldBytes([Field(name, Ref(a, b))]) == [12] + name + [0] + ([|a| + 1, 0, 0, 0] + a + [0] + b)
    ensures FieldBytes([Field(name, Binary(sub, a))]) == [5] + name + [0] + ([|a|, 0, 0, 0] + [sub] + a)
    ensures FieldBytes([Field(name, Regex(a, b))]) == [11] + name + [0] + (a + [0] + b + [0])
    ensures FieldBytes([Field(name, Scoped(a))]) == [15] + name + [0] + ([|a| + 4, 0, 0, 0] + a)
    ensures FieldBytes([Field(name, Obj([Field(a, Bare(10))]))]) ==
      [3] + name + [0] + ([|a| + 7, 0, 0, 0] + ([10] + a + [0] + []) + [0])
  {
    OneField(name, Flag(on));
    OneField(name, Bare(10));
    OneField(name, Ref(a, b));
    OneField(name, Binary(sub, a));
    OneField(name, Regex(a, b));
    OneField(name, Scoped(a));
    OneField(a, Bare(10));
    OneField(name, Obj([Field(a, Bare(10))]));
    ShortLength(|a|);
    ShortLength(|a| + 1);
    ShortLength(|a| + 4);
    ShortLength(|a| + 7);
  }

  const AWESOME: bytes := [0x61, 0x77, 0x65, 0x73, 0x6F, 0x6D, 0x65]
  const NUMBER: bytes := [0x33, 0x33, 0x33, 0x33, 0x33, 0x33, 0x14, 0x40]
  const YEAR: bytes := [0xC2, 7, 0, 0]

  lemma ThreeItems(a: Value, b: Value, c: Value)
    ensures ItemBytes([a, b, c], 0) ==
      [Kind(a)] + [0x30] + [0] + Payload(a) +
        ([Kind(b)] + [0x31] + [0] + Payload(b) + ([Kind(c)] + [0x32] + [0] + Payload(c)))
  {
    ItemBytesMore(c, [], 2);
    ItemBytesMore(b, [c] + [], 1);
    ItemBytesMore(a, [b] + ([c] + []), 0);
    assert [a] + ([b] + ([c] + [])) == [a, b, c];
    var last := [Kind(c)] + [0x32] + [0] + Payload(c);
    assert last + [] == last;
  }

  /** Its second example, `{"BSON": ["awesome", 5.05, 1986]}`. */
  lemma Awesome(name: bytes)
    requires name == [0x42, 0x53, 0x4F, 0x4E]
    ensures
      var items :=
        [2] + [0x30] + [0] + ([8, 0, 0, 0] + AWESOME + [0]) +
          ([1] + [0x31] + [0] + NUMBER + ([16] + [0x32] + [0] + YEAR));
      Document([Field(name, Arr([Text(2, AWESOME), Fixed(1, NUMBER), Fixed(16, YEAR)]))]) ==
        [0x31, 0, 0, 0] + ([4] + name + [0] + ([0x26, 0, 0, 0] + items + [0])) + [0]
  {
    var a, b, c := Text(2, AWESOME), Fixed(1, NUMBER), Fixed(16, YEAR);
    ThreeItems(a, b, c);
    OneField(name, Arr([a, b, c]));
    assert Le32(|AWESOME| + 1) == [8, 0, 0, 0];
    assert Le32(0x26) == [0x26, 0, 0, 0] && Le32(0x31) == [0x31, 0, 0, 0];
  }
}
