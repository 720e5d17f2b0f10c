/** What the decoder puts out for bytes that no encoder wrote: a well-formed document or a failure. */
module CodecSafety {
  import opened Bson
  import opened Codec

  /** Values that the BSON specification knows, whatever their size. */
  predicate Shaped(v: Value)
    decreases v
  {
    match v
    case Bare(k) => IsBare(k)
    case Flag(_) => true
    case Fixed(k, raw) => Width(k) > 0 && |raw| == Width(k)
    case Text(k, s) => IsText(k) && 0 !in s
    case Ref(s, oid) => 0 !in s && |oid| == 12
    case Binary(_, _) => true
    case Regex(p, o) => 0 !in p && 0 !in o
    case Scoped(_) => true
    case Arr(items) => ShapedItems(items)
    case Obj(fields) => ShapedFields(fields)
  }

  predicate ShapedItems(items: seq<Value>)
    decreases items
  {
    forall i :: 0 <= i < |items| ==> Shaped(items[i])
  }

  predicate ShapedFields(fields: seq<Field>)
    decreases fields
  {
    forall i :: 0 <= i < |fields| ==> 0 !in fields[i].name && Shaped(fields[i].value)
  }

  /** The bytes put out are those of `v`. */
  ghost predicate Puts(r: Result, kind: byte, v: Value) {
    Shaped(v) && Kind(v) == kind && r.Done? && r.out == Payload(v)
  }

  // ---- Every code with scope on the way has a length that counts at least its own four bytes.

  predicate ScopesFit(s: bytes, kind: byte)
    decreases |s|, 0, 2
  {
    if kind == OBJECT then FieldsFit(s)
    else if kind == ARRAY then
      match LoadVar(s)
      case NoCount => true
      case Counted(n, s1) => n == 0 || s1 == [] || ItemsFit(s1[1..], s1[0], 0, n)
    else kind == CODE_W_SCOPE && |s| >= 4 ==> Read32(s) >= 4
  }

  predicate ItemFits(s: bytes, itemKind: byte)
    requires s != []
    decreases |s|, 0, 3
  {
    if itemKind == MIXED then ScopesFit(s[1..], s[0]) else ScopesFit(s, itemKind)
  }

  predicate ItemsFit(s: bytes, itemKind: byte, from: nat, n: nat)
    requires from <= n
    decreases |s|, n - from, 4
  {
    from == n || s == [] ||
    (ItemFits(s, itemKind) &&
    (DecItem(s, itemKind, from).Done? ==> ItemsFit(DecItem(s, itemKind, from).rest, itemKind, from + 1, n)))
  }

  predicate FieldFits(s: bytes)
    requires s != []
    decreases |s|, 0, 0
  {
    var n := 1 + UpToZero(s[1..]);
    n >= |s| || ScopesFit(s[n + 1..], s[0])
  }

  predicate FieldsFit(s: bytes)
    decreases |s|, 0, 1
  {
    s == [] || s[0] == EOO || (FieldFits(s) && (DecField(s).Done? ==> FieldsFit(DecField(s).rest)))
  }

  predicate RecordFits(s: bytes)
    decreases |s|
  {
    s == [] || (FieldFits(s) && (DecField(s).Done? ==> RecordFits(DecField(s).rest)))
  }

  // ---- Values without parts.

  lemma TextWell(s: bytes, kind: byte) returns (v: Value)
    requires IsText(kind) && DecPlain(s, kind).Done?
    ensures Puts(DecPlain(s, kind), kind, v)
  {
    var n := UpToZero(s);
    v := Text(kind, s[..n]);
    assert s[..n + 1] == s[..n] + [0];
    assert Le32(n + 1) + (s[..n] + [0]) == Le32(n + 1) + s[..n] + [0];
  }

  lemma RefWell(s: bytes) returns (v: Value)
    requires DecPlain(s, DB_REF).Done?
    ensures Puts(DecPlain(s, DB_REF), DB_REF, v)
  {
    var n := UpToZero(s);
    v := Ref(s[..n], s[n + 1..n + 13]);
    assert s[..n + 13] == s[..n] + [0] + s[n + 1..n + 13];
    assert Le32(n + 1) + (s[..n] + [0] + s[n + 1..n + 13]) == Le32(n + 1) + s[..n] + [0] + s[n + 1..n + 13];
  }

  lemma BinaryWell(s: bytes) returns (v: Value)
    requires DecPlain(s, BIN_DATA).Done?
    ensures Puts(DecPlain(s, BIN_DATA), BIN_DATA, v)
  {
    var n := Read32(s);
    v := Binary(s[4], s[5..5 + n]);
    Le32Inverse(s);
    assert s[..5 + n] == s[..4] + [s[4]] + s[5..5 + n];
  }

  lemma TwoZeros(s: bytes, m: nat, n: nat)
    requires m + 1 + n + 1 <= |s| && s[m] == 0 && s[m + 1..][n] == 0
    ensures s[..m + 1 + n + 1] == s[..m] + [0] + s[m + 1..][..n] + [0]
  {
    var t := s[m + 1..];
    assert t[..n + 1] == t[..n] + [0];
    assert s[..m + 1] == s[..m] + [0];
    assert s[..m + 1 + (n + 1)] == s[..m + 1] + t[..n + 1];
  }

  lemma RegexWell(s: bytes) returns (v: Value)
    requires DecPlain(s, REG_EX).Done?
    ensures Puts(DecPlain(s, REG_EX), REG_EX, v)
  {
    var m := UpToZero(s);
    var n := UpToZero(s[m + 1..]);
    v := Regex(s[..m], s[m + 1..][..n]);
    TwoZeros(s, m, n);
  }

  lemma ScopedWell(s: bytes) returns (v: Value)
    requires DecPlain(s, CODE_W_SCOPE).Done? && Read32(s) >= 4
    ensures Puts(DecPlain(s, CODE_W_SCOPE), CODE_W_SCOPE, v)
  {
    var n := Read32(s);
    v := Scoped(s[4..n]);
    Le32Inverse(s);
    assert s[..n] == s[..4] + s[4..n];
  }

  lemma PlainWell(s: bytes, kind: byte) returns (v: Value)
    requires kind != OBJECT && kind != ARRAY && ScopesFit(s, kind) && DecPlain(s, kind).Done?
    ensures Puts(DecPlain(s, kind), kind, v)
  {
    if IsBare(kind) {
      v := Bare(kind);
    } else if kind == BOOL {
      v := Flag(s[0] != 0);
    } else if Width(kind) > 0 {
      v := Fixed(kind, s[..Width(kind)]);
    } else if IsText(kind) {
      v := TextWell(s, kind);
    } else if kind == DB_REF {
      v := RefWell(s);
    } else if kind == BIN_DATA {
      v := BinaryWell(s);
    } else if kind == CODE_W_SCOPE {
      v := ScopedWell(s);
    } else {
      v := RegexWell(s);
    }
  }

  // ---- Arrays and objects.

  lemma {:induction false} BlankItems(kind: byte, from: nat, n: nat) returns (items: seq<Value>)
    requires from <= n && IsBare(kind)
    ensures ShapedItems(items) && ItemBytes(items, from) == BareItems(kind, from, n)
    decreases n - from
  {
    if from == n {
      items := [];
    } else {
      var rest := BlankItems(kind, from + 1, n);
      items := [Bare(kind)] + rest;
      assert items[0] == Bare(kind) && items[1..] == rest;
      BareFirst(items, kind, from);
    }
  }

  lemma {:induction false} DecWell(s: bytes, kind: byte) returns (v: Value)
    requires ScopesFit(s, kind) && Dec(s, kind).Done?
    ensures Puts(Dec(s, kind), kind, v)
    decreases |s|, 0, 2
  {
    if kind == OBJECT {
      var fields := FieldsWell(s);
      v := Obj(fields);
    } else if kind == ARRAY {
      v := ArrayWell(s);
    } else {
      v := PlainWell(s, kind);
    }
  }

  lemma {:induction false} ArrayWell(s: bytes) returns (v: Value)
    requires ScopesFit(s, ARRAY) && Dec(s, ARRAY).Done?
    ensures Puts(Dec(s, ARRAY), ARRAY, v)
    decreases |s|, 0, 1
  {
    var c := LoadVar(s);
    if c.count == 0 {
      v := Arr([]);
    } else {
      var k, s2 := c.left[0], c.left[1..];
      var items;
      if IsBlank(k) {
        items := BlankItems(k, 0, c.count);
      } else {
        items := ItemsWell(s2, k, 0, c.count);
      }
      v := Arr(items);
    }
  }

  lemma ItemsMore(v: Value, rest: seq<Value>, from: nat)
    requires Shaped(v) && ShapedItems(rest)
    ensures ShapedItems([v] + rest)
    ensures ItemBytes([v] + rest, from) == Named(Kind(v), Digits(from)) + Payload(v) + ItemBytes(rest, from + 1)
  {
    var items := [v] + rest;
    assert items[0] == v && items[1..] == rest;
  }

  lemma {:induction false} ItemWell(s: bytes, itemKind: byte, index: nat) returns (v: Value)
    requires s != [] && ItemFits(s, itemKind) && DecItem(s, itemKind, index).Done?
    ensures Shaped(v) && DecItem(s, itemKind, index).out == Named(Kind(v), Digits(index)) + Payload(v)
    decreases |s|, 0, 3
  {
    if itemKind == MIXED {
      v := DecWell(s[1..], s[0]);
    } else {
      v := DecWell(s, itemKind);
    }
  }

  lemma ItemsStep(s: bytes, itemKind: byte, from: nat, n: nat)
    requires from < n && DecItems(s, itemKind, from, n).Done?
    ensures s != [] && DecItem(s, itemKind, from).Done?
    ensures
      var r := DecItem(s, itemKind, from);
      && DecItems(r.rest, itemKind, from + 1, n).Done?
      && DecItems(s, itemKind, from, n) == Before(r.out, DecItems(r.rest, itemKind, from + 1, n))
  {
  }

  lemma {:induction false} ItemsWell(s: bytes, itemKind: byte, from: nat, n: nat) returns (items: seq<Value>)
    requires from <= n && ItemsFit(s, itemKind, from, n) && DecItems(s, itemKind, from, n).Done?
    ensures ShapedItems(items) && DecItems(s, itemKind, from, n).out == ItemBytes(items, from)
    decreases |s|, n - from, 4
  {
    if from == n {
      items := [];
    } else {
      ItemsStep(s, itemKind, from, n);
      var v := ItemWell(s, itemKind, from);
      items := ItemsWell(DecItem(s, itemKind, from).rest, itemKind, from + 1, n);
      ItemsMore(v, items, from);
      items := [v] + items;
    }
  }

  lemma FieldsMore(f: Field, rest: seq<Field>)
    requires 0 !in f.name && Shaped(f.value) && ShapedFields(rest)
    ensures ShapedFields([f] + rest)
    ensures FieldBytes([f] + rest) == Named(Kind(f.value), f.name) + Payload(f.value) + FieldBytes(rest)
  {
    var fields := [f] + rest;
    assert fields[0] == f && fields[1..] == rest;
  }

  lemma {:induction false} FieldWell(s: bytes) returns (f: Field)
    requires s != [] && FieldFits(s) && DecField(s).Done?
    ensures 0 !in f.name && Shaped(f.value)
    ensures DecField(s).out == Named(Kind(f.value), f.name) + Payload(f.value)
    decreases |s|, 0, 0
  {
    var n := 1 + UpToZero(s[1..]);
    var v := DecWell(s[n + 1..], s[0]);
    assert s[1..n] == s[1..][..n - 1];
    f := Field(s[1..n], v);
  }

  lemma FieldsStep(s: bytes)
    requires s != [] && s[0] != EOO && DecFields(s).Done?
    ensures DecField(s).Done? && DecFields(DecField(s).rest).Done?
    ensures DecFields(s) == Before(DecField(s).out, DecFields(DecField(s).rest))
  {
  }

  lemma {:induction false} FieldsWell(s: bytes) returns (fields: seq<Field>)
    requires FieldsFit(s) && DecFields(s).Done?
    ensures ShapedFields(fields) && DecFields(s).out == FieldBytes(fields)
    decreases |s|, 0, 1
  {
    if s[0] == EOO {
      fields := [];
    } else {
      FieldsStep(s);
      var f := FieldWell(s);
      var t := DecField(s).rest;
      fields := FieldsWell(t);
      FieldsMore(f, fields);
      fields := [f] + fields;
    }
  }

  lemma {:induction false} RecordWell(s: bytes) returns (fields: seq<Field>)
    requires RecordFits(s) && DecRecord(s).Done?
    ensures ShapedFields(fields) && DecRecord(s).out == FieldBytes(fields)
    decreases |s|
  {
    if s == [] {
      fields := [];
    } else {
      var f := FieldWell(s);
      fields := RecordWell(DecField(s).rest);
      FieldsMore(f, fields);
      fields := [f] + fields;
    }
  }

  /** Whatever the bytes, the decoder fails or puts out a well-formed document. */
  lemma DecodedWell(s: bytes)
    requires RecordFits(s)
    ensures DecRecord(s).Fail? || exists fields :: ShapedFields(fields) && Wrap(DecRecord(s).out) == Document(fields)
  {
    if DecRecord(s).Done? {
      var fields := RecordWell(s);
      assert Wrap(DecRecord(s).out) == Document(fields);
    }
  }

  /** A code with scope that claims three bytes is put out with three, which none has. */
  lemma ScopeTooShort(raw: bytes)
    ensures Dec([3, 0, 0, 0], CODE_W_SCOPE) == Done([3, 0, 0], [0]) && !ScopesFit([3, 0, 0, 0], CODE_W_SCOPE)
    ensures |Payload(Scoped(raw))| >= 4
  {
    assert Read32([3, 0, 0, 0]) == 3;
  }
}
