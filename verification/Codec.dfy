/** The schema-less record codec: what the encoder writes, what the decoder makes of any bytes, and when the
    second undoes the first. */
module Codec {
  import opened Bson

  /** The number of items of an array, seven bits to a byte with the low ones first. */
  function VarUint(n: nat): bytes {
    if n < 128 then [n] else [128 + n % 128] + VarUint(n / 128)
  }

  /** Array items of several types are announced by a type byte that no value has. */
  const MIXED: byte := 129

  function ItemKind(items: seq<Value>): byte
    requires items != []
  {
    if forall i :: 0 <= i < |items| ==> Kind(items[i]) == Kind(items[0]) then Kind(items[0]) else MIXED
  }

  // ---- What the encoder writes.

  function Enc(v: Value): bytes
    decreases v, 0
  {
    match v
    case Bare(_) => []
    case Flag(on) => [if on then 1 else 0]
    case Fixed(_, raw) => raw
    case Text(_, s) => s + [0]
    case Ref(s, oid) => s + [0] + oid
    case Binary(sub, raw) => Le32(|raw|) + [sub] + raw
    case Regex(p, o) => p + [0] + o + [0]
    case Scoped(raw) => Le32(|raw| + 4) + raw
    case Arr(items) =>
      if items == [] then VarUint(0)
      else VarUint(|items|) + [ItemKind(items)] + EncItems(items, ItemKind(items) == MIXED)
    case Obj(fields) => EncFields(fields) + [EOO]
  }

  function EncItems(items: seq<Value>, mixed: bool): bytes
    decreases items, |items|
  {
    if items == [] then []
    else (if mixed then [Kind(items[0])] else []) + Enc(items[0]) + EncItems(items[1..], mixed)
  }

  function EncFields(fields: seq<Field>): bytes
    decreases fields, |fields|
  {
    if fields == [] then []
    else Named(Kind(fields[0].value), fields[0].name) + Enc(fields[0].value) + EncFields(fields[1..])
  }

  // ---- What the decoder makes of any bytes.

  /** The bytes put out and the bytes left to read. */
  datatype Result = Fail | Done(out: bytes, rest: bytes)

  /** The bytes before the first zero. */
  function UpToZero(s: bytes): (n: nat)
    ensures n <= |s| && 0 !in s[..n] && (n < |s| ==> s[n] == 0)
  {
    if s == [] || s[0] == 0 then 0 else
      var n := 1 + UpToZero(s[1..]);
      assert s[..n] == [s[0]] + s[1..][..n - 1];
      n
  }

  datatype Count = NoCount | Counted(count: nat, left: bytes)

  function LoadVar(s: bytes): (c: Count)
    ensures c.Counted? ==> |c.left| < |s|
  {
    if s == [] then NoCount
    else if s[0] < 128 then Counted(s[0], s[1..])
    else match LoadVar(s[1..])
      case NoCount => NoCount
      case Counted(n, left) => var low: int := s[0]; Counted(128 * n + (low - 128), left)
  }

  /** Copies the next `n` bytes. */
  function Take(s: bytes, n: nat): Result { if n <= |s| then Done(s[..n], s[n..]) else Fail }

  function Before(head: bytes, r: Result): Result { if r.Fail? then Fail else Done(head + r.out, r.rest) }

  function Wrapped(r: Result): Result { if r.Fail? then Fail else Done(Wrap(r.out), r.rest) }

  function DecPlain(s: bytes, kind: byte): (r: Result)
    ensures r.Done? ==> |r.rest| <= |s|
  {
    if IsBare(kind) then Done([], s)
    else if kind == BOOL then if s == [] then Fail else Done([if s[0] == 0 then 0 else 1], s[1..])
    else if Width(kind) > 0 then Take(s, Width(kind))
    else if IsText(kind) then Before(Le32(UpToZero(s) + 1), Take(s, UpToZero(s) + 1))
    else if kind == DB_REF then Before(Le32(UpToZero(s) + 1), Take(s, UpToZero(s) + 1 + 12))
    else if kind == CODE_W_SCOPE then if |s| < 4 then Fail else Take(s, Read32(s))
    else if kind == BIN_DATA then if |s| < 5 then Fail else Take(s, 5 + Read32(s))
    else if kind == REG_EX then
      var n := UpToZero(s) + 1;
      if n > |s| then Fail else Take(s, n + UpToZero(s[n..]) + 1)
    else Fail
  }

  function Dec(s: bytes, kind: byte): (r: Result)
    ensures r.Done? ==> |r.rest| <= |s|
    decreases |s|, 0, 2
  {
    if kind == OBJECT then Wrapped(DecFields(s))
    else if kind == ARRAY then
      match LoadVar(s)
      case NoCount => Fail
      case Counted(n, s1) =>
        if n == 0 then Done(Wrap([]), s1)
        else if s1 == [] then Fail
        else if s1[0] in {UNDEFINED, NULL, MAX_KEY} then
          if s1[1..] == [] then Done(Wrap(BareItems(s1[0], 0, n)), []) else Fail
        else Wrapped(DecItems(s1[1..], s1[0], 0, n))
    else DecPlain(s, kind)
  }

  function BareItems(kind: byte, from: nat, n: nat): bytes
    requires from <= n
    decreases n - from
  {
    if from == n then [] else Named(kind, Digits(from)) + BareItems(kind, from + 1, n)
  }

  /** One item: its type if types are mixed, a name made from its number, and its value. */
  function DecItem(s: bytes, itemKind: byte, index: nat): (r: Result)
    requires s != []
    ensures r.Done? ==> |r.rest| <= |s|
    decreases |s|, 0, 3
  {
    var (kind, s1) := if itemKind == MIXED then (s[0], s[1..]) else (itemKind, s);
    Before(Named(kind, Digits(index)), Dec(s1, kind))
  }

  /** The items from number `from` on, each of them read only if there are bytes left. */
  function DecItems(s: bytes, itemKind: byte, from: nat, n: nat): (r: Result)
    requires from <= n
    ensures r.Done? ==> |r.rest| <= |s|
    decreases |s|, n - from, 4
  {
    if from == n then Done([], s)
    else if s == [] then Fail
    else
      var r := DecItem(s, itemKind, from);
      if r.Fail? then Fail else Before(r.out, DecItems(r.rest, itemKind, from + 1, n))
  }

  /** One field: its type, its name and its value. */
  function DecField(s: bytes): (r: Result)
    requires s != []
    ensures r.Done? ==> |r.rest| < |s|
    decreases |s|, 0, 0
  {
    var n := 1 + UpToZero(s[1..]);
    if n >= |s| then Fail else Before(Named(s[0], s[1..n]), Dec(s[n + 1..], s[0]))
  }

  /** The fields of a nested object, up to its end marker. */
  function DecFields(s: bytes): (r: Result)
    ensures r.Done? ==> |r.rest| <= |s|
    decreases |s|, 0, 1
  {
    if s == [] then Fail
    else if s[0] == EOO then Done([], s[1..])
    else
      var r := DecField(s);
      if r.Fail? then Fail else Before(r.out, DecFields(r.rest))
  }

  /** The fields of a record, up to the end of the bytes. */
  function DecRecord(s: bytes): (r: Result)
    ensures r.Done? ==> r.rest == []
    decreases |s|
  {
    if s == [] then Done([], [])
    else
      var r := DecField(s);
      if r.Fail? then Fail else Before(r.out, DecRecord(r.rest))
  }

  // ---- When decoding gives back what was encoded.

  /** What the encoder accepts: strings without a zero byte inside. */
  predicate Encodable(v: Value)
    decreases v, 0
  {
    match v
    case Text(_, s) => 0 !in s
    case Arr(items) => forall i :: 0 <= i < |items| ==> Encodable(items[i])
    case Obj(fields) => forall i :: 0 <= i < |fields| ==> Encodable(fields[i].value)
    case _ => true
  }

  /** Kinds whose values take no bytes and that an array of nothing else writes once. */
  predicate IsBlank(kind: byte) { kind in {UNDEFINED, NULL, MAX_KEY} }

  /** `last` says that no byte follows.  An array of nothing but undefined, null or largest keys has to come last,
      one of nothing but smallest keys must not, and a reference has no zero byte in its name. */
  predicate Good(v: Value, last: bool)
    decreases v, 0
  {
    match v
    case Ref(s, _) => 0 !in s
    case Arr(items) =>
      items == [] ||
      (if IsBlank(ItemKind(items)) then last else if ItemKind(items) == MIN_KEY then !last else GoodItems(items, last))
    case Obj(fields) => GoodFields(fields, false)
    case _ => true
  }

  predicate GoodItems(items: seq<Value>, last: bool)
    decreases items, |items|
  {
    items == [] || (Good(items[0], last && |items| == 1) && GoodItems(items[1..], last))
  }

  predicate GoodFields(fields: seq<Field>, last: bool)
    decreases fields, |fields|
  {
    fields == [] || (Good(fields[0].value, last && |fields| == 1) && GoodFields(fields[1..], last))
  }

  ghost predicate Differs(a: bytes, b: bytes) { exists k :: 0 <= k < |a| && k < |b| && a[k] != b[k] }

  ghost predicate Wrong(r: Result, expected: bytes) { r.Fail? || Differs(r.out, expected) }

  ghost predicate Judged(r: Result, expected: bytes, rest: bytes, good: bool) {
    if good then r == Done(expected, rest) else Wrong(r, expected)
  }

  lemma DiffersWithin(p: bytes, a: bytes, x: bytes, q: bytes, b: bytes, y: bytes)
    requires |p| == |q| && Differs(a, b)
    ensures Differs(p + a + x, q + b + y)
  {
    var k :| 0 <= k < |a| && k < |b| && a[k] != b[k];
    assert (p + a + x)[|p| + k] == a[k] && (q + b + y)[|q| + k] == b[k];
  }

  /** A part and what follows it. */
  lemma Joined(head: bytes, r: Result, expected: bytes, rest: bytes, next: Result, more: bytes, end: bytes,
      good: bool, nextGood: bool)
    requires Judged(r, expected, rest, good) && (good ==> Judged(next, more, end, nextGood))
    ensures Judged(if r.Fail? then Fail else Before(head + r.out, next), head + expected + more, end, good && nextGood)
  {
    if !r.Fail? && !next.Fail? {
      if !good {
        DiffersWithin(head, r.out, next.out, head, expected, more);
      } else if !nextGood {
        DiffersWithin(head + expected, next.out, [], head + expected, more, []);
        assert head + expected + next.out + [] == head + expected + next.out;
        assert head + expected + more + [] == head + expected + more;
      }
    }
  }

  lemma WrapJudged(r: Result, expected: bytes, rest: bytes, good: bool)
    requires Judged(r, expected, rest, good)
    ensures Judged(Wrapped(r), Wrap(expected), rest, good)
  {
    if !good && !r.Fail? {
      DiffersWithin(Le32(|r.out| + 5), r.out, [EOO], Le32(|expected| + 5), expected, [EOO]);
    }
  }

  lemma {:induction false} ZeroAt(a: bytes, post: bytes)
    requires 0 !in a
    ensures UpToZero(a + [0] + post) == |a|
  {
    if a == [] {
    } else {
      ZeroAt(a[1..], post);
      assert (a + [0] + post)[1..] == a[1..] + [0] + post;
    }
  }

  /** A byte with its top bit set counts for the low seven bits of the number that the rest gives. */
  lemma LoadVarStep(low: byte, rest: bytes, n: nat, left: bytes)
    requires low >= 128 && LoadVar(rest) == Counted(n, left)
    ensures LoadVar([low] + rest) == Counted(128 * n + low - 128, left)
  {
    assert ([low] + rest)[1..] == rest;
  }

  lemma {:induction false} CountRoundTrip(n: nat, post: bytes)
    ensures LoadVar(VarUint(n) + post) == Counted(n, post)
  {
    if n < 128 {
      assert ([n] + post)[1..] == post;
    } else {
      var low, rest := 128 + n % 128, VarUint(n / 128) + post;
      CountRoundTrip(n / 128, post);
      LoadVarStep(low, rest, n / 128, post);
      assert VarUint(n) + post == [low] + rest;
    }
  }

  lemma TakeAll(a: bytes, post: bytes)
    ensures Take(a + post, |a|) == Done(a, post)
  {
  }

  lemma TextDecodes(kind: byte, a: bytes, post: bytes)
    requires IsText(kind) && 0 !in a
    ensures DecPlain(a + [0] + post, kind) == Done(Le32(|a| + 1) + a + [0], post)
  {
    ZeroAt(a, post);
    TakeAll(a + [0], post);
    assert Le32(|a| + 1) + (a + [0]) == Le32(|a| + 1) + a + [0];
  }

  lemma BinaryDecodes(sub: byte, raw: bytes, post: bytes)
    requires |raw| <= LIMIT
    ensures DecPlain(Le32(|raw|) + [sub] + raw + post, BIN_DATA) == Done(Le32(|raw|) + [sub] + raw, post)
  {
    var s := Le32(|raw|) + [sub] + raw + post;
    assert s == Le32(|raw|) + ([sub] + raw + post);
    Le32RoundTrip(|raw|, [sub] + raw + post);
    TakeAll(Le32(|raw|) + [sub] + raw, post);
  }

  lemma ScopedDecodes(raw: bytes, post: bytes)
    requires |raw| + 4 <= LIMIT
    ensures DecPlain(Le32(|raw| + 4) + raw + post, CODE_W_SCOPE) == Done(Le32(|raw| + 4) + raw, post)
  {
    var s := Le32(|raw| + 4) + raw + post;
    assert s == Le32(|raw| + 4) + (raw + post);
    Le32RoundTrip(|raw| + 4, raw + post);
    TakeAll(Le32(|raw| + 4) + raw, post);
  }

  lemma RegexDecodes(p: bytes, o: bytes, post: bytes)
    requires 0 !in p && 0 !in o
    ensures DecPlain(p + [0] + o + [0] + post, REG_EX) == Done(p + [0] + o + [0], post)
  {
    var s := p + [0] + o + [0] + post;
    assert s == p + [0] + (o + [0] + post);
    ZeroAt(p, o + [0] + post);
    assert s[|p| + 1..] == o + [0] + post;
    ZeroAt(o, post);
    TakeAll(p + [0] + o + [0], post);
  }

  /** Values without parts. */
  lemma PlainDecodes(v: Value, post: bytes)
    requires Wf(v) && Encodable(v) && !v.Arr? && !v.Obj? && !v.Ref?
    ensures DecPlain(Enc(v) + post, Kind(v)) == Done(Payload(v), post)
  {
    match v {
      case Bare(_) => assert Enc(v) + post == post;
      case Flag(_) =>
      case Fixed(_, raw) => TakeAll(raw, post);
      case Text(k, a) => TextDecodes(k, a, post);
      case Binary(sub, raw) => BinaryDecodes(sub, raw, post);
      case Scoped(raw) => ScopedDecodes(raw, post);
      case Regex(p, o) => RegexDecodes(p, o, post);
    }
  }

  lemma RefDecodes(a: bytes, oid: bytes, post: bytes)
    requires |oid| == 12 && 0 !in a
    ensures DecPlain(a + [0] + oid + post, DB_REF) == Done(Le32(|a| + 1) + a + [0] + oid, post)
  {
    assert a + [0] + oid + post == a + [0] + (oid + post);
    ZeroAt(a, oid + post);
    TakeAll(a + [0] + oid, post);
    assert Le32(|a| + 1) + (a + [0] + oid) == Le32(|a| + 1) + a + [0] + oid;
  }

  lemma HeadDiffers(m: nat, n: nat, x: bytes, y: bytes)
    requires m < n < 0x1_0000_0000
    ensures Differs(Le32(m) + x, Le32(n) + y)
  {
    Le32Differs(m, n);
    var a, b := Le32(m), Le32(n);
    var k :| 0 <= k < 4 && a[k] != b[k];
    assert (a + x)[k] == a[k] && (b + y)[k] == b[k];
  }

  /** A reference is read up to the first zero byte, so a zero inside its name gives another length. */
  lemma RefFails(a: bytes, oid: bytes, post: bytes)
    requires |a| < LIMIT && |oid| == 12 && 0 in a
    ensures Wrong(DecPlain(a + [0] + oid + post, DB_REF), Le32(|a| + 1) + a + [0] + oid)
  {
    var s := a + [0] + oid + post;
    var n := UpToZero(s);
    assert s == a + ([0] + oid + post);
    ZeroEarly(a, [0] + oid + post);
    HeadDiffers(n + 1, |a| + 1, if n + 13 <= |s| then s[..n + 13] else [], a + [0] + oid);
    assert Le32(|a| + 1) + (a + [0] + oid) == Le32(|a| + 1) + a + [0] + oid;
  }

  lemma {:induction false} ZeroEarly(a: bytes, post: bytes)
    requires 0 in a
    ensures UpToZero(a + post) < |a|
  {
    if a[0] == 0 {
    } else {
      ZeroEarly(a[1..], post);
      assert (a + post)[1..] == a[1..] + post;
    }
  }

  // ---- Values with parts.

  lemma EncNonEmpty(v: Value)
    requires Wf(v) && !IsBare(Kind(v))
    ensures Enc(v) != []
  {
    match v {
      case Arr(items) => assert |VarUint(|items|)| > 0;
      case _ =>
    }
  }

  ghost predicate ItemsOk(items: seq<Value>, itemKind: byte) {
    && (forall i :: 0 <= i < |items| ==> Wf(items[i]) && Encodable(items[i]))
    && (itemKind != MIXED ==> !IsBare(itemKind) && forall i :: 0 <= i < |items| ==> Kind(items[i]) == itemKind)
  }

  lemma ItemsOkRest(items: seq<Value>, itemKind: byte)
    requires ItemsOk(items, itemKind) && items != []
    ensures ItemsOk(items[1..], itemKind)
  {
  }

  /** Every item but the last is followed by a byte. */
  lemma ItemsFollow(items: seq<Value>, itemKind: byte, post: bytes)
    requires ItemsOk(items, itemKind)
    ensures EncItems(items, itemKind == MIXED) + post == [] <==> items == [] && post == []
  {
    if items != [] && itemKind != MIXED {
      EncNonEmpty(items[0]);
    }
  }

  /** One round of the loop over the items. */
  lemma ItemRead(s: bytes, kind: byte, itemKind: byte, from: nat, n: nat)
    requires from < n && (itemKind == MIXED || (kind == itemKind && s != []))
    ensures
      var r := Dec(s, kind);
      DecItems((if itemKind == MIXED then [kind] else []) + s, itemKind, from, n) ==
      if r.Fail? then Fail else Before(Named(kind, Digits(from)) + r.out, DecItems(r.rest, itemKind, from + 1, n))
  {
    if itemKind == MIXED {
      assert ([kind] + s)[1..] == s;
    } else {
      assert [] + s == s;
    }
  }

  lemma ItemRegroup(a: bytes, b: bytes, c: bytes, d: bytes)
    ensures a + b + c + d == a + (b + (c + d))
  {
  }

  lemma ItemStep(items: seq<Value>, itemKind: byte, from: nat, post: bytes, tail: bytes, r: Result)
    requires ItemsOk(items, itemKind) && items != []
    requires tail == EncItems(items[1..], itemKind == MIXED) + post && r == Dec(Enc(items[0]) + tail, Kind(items[0]))
    ensures DecItems(EncItems(items, itemKind == MIXED) + post, itemKind, from, from + |items|) ==
      if r.Fail? then Fail
      else Before(Named(Kind(items[0]), Digits(from)) + r.out, DecItems(r.rest, itemKind, from + 1, from + |items|))
  {
    var head: bytes := if itemKind == MIXED then [Kind(items[0])] else [];
    ItemRegroup(head, Enc(items[0]), EncItems(items[1..], itemKind == MIXED), post);
    assert itemKind != MIXED ==> Enc(items[0]) + tail != [] by {
      if itemKind != MIXED { EncNonEmpty(items[0]); }
    }
    ItemRead(Enc(items[0]) + tail, Kind(items[0]), itemKind, from, from + |items|);
  }

  lemma ItemsJoined(items: seq<Value>, from: nat, r: Result, tail: bytes, next: Result, post: bytes)
    requires items != [] && (tail == [] <==> post == [] && |items| == 1)
    requires Judged(r, Payload(items[0]), tail, Good(items[0], tail == []))
    requires r == Done(Payload(items[0]), tail) ==>
        Judged(next, ItemBytes(items[1..], from + 1), post, GoodItems(items[1..], post == []))
    ensures Judged(if r.Fail? then Fail else Before(Named(Kind(items[0]), Digits(from)) + r.out, next),
      ItemBytes(items, from), post, GoodItems(items, post == []))
  {
    Joined(Named(Kind(items[0]), Digits(from)), r, Payload(items[0]), tail, next, ItemBytes(items[1..], from + 1), post,
      Good(items[0], tail == []), GoodItems(items[1..], post == []));
  }

  /** The first item and the others. */
  lemma ItemsCombine(items: seq<Value>, itemKind: byte, from: nat, post: bytes, tail: bytes)
    requires ItemsOk(items, itemKind) && items != [] && tail == EncItems(items[1..], itemKind == MIXED) + post
    requires tail == [] <==> post == [] && |items| == 1
    requires Judged(Dec(Enc(items[0]) + tail, Kind(items[0])), Payload(items[0]), tail, Good(items[0], tail == []))
    requires Judged(DecItems(tail, itemKind, from + 1, from + |items|), ItemBytes(items[1..], from + 1), post,
        GoodItems(items[1..], post == []))
    ensures Judged(DecItems(EncItems(items, itemKind == MIXED) + post, itemKind, from, from + |items|),
      ItemBytes(items, from), post, GoodItems(items, post == []))
  {
    var r := Dec(Enc(items[0]) + tail, Kind(items[0]));
    var next := if r.Fail? then Fail else DecItems(r.rest, itemKind, from + 1, from + |items|);
    ItemsJoined(items, from, r, tail, next, post);
    ItemStep(items, itemKind, from, post, tail, r);
  }

  lemma {:induction false} ItemsDecode(items: seq<Value>, itemKind: byte, from: nat, post: bytes)
    requires ItemsOk(items, itemKind)
    ensures Judged(DecItems(EncItems(items, itemKind == MIXED) + post, itemKind, from, from + |items|),
      ItemBytes(items, from), post, GoodItems(items, post == []))
    decreases items, |items|, 1
  {
    if items == [] {
      assert EncItems(items, itemKind == MIXED) + post == post;
    } else {
      var tail := EncItems(items[1..], itemKind == MIXED) + post;
      ItemsOkRest(items, itemKind);
      ItemsFollow(items[1..], itemKind, post);
      Decodes(items[0], tail);
      ItemsDecode(items[1..], itemKind, from + 1, post);
      ItemsCombine(items, itemKind, from, post, tail);
    }
  }

  lemma FieldHead(kind: byte, name: bytes, tail: bytes)
    requires 0 !in name
    ensures
      var s := Named(kind, name) + tail;
      && |s| > |name| + 1 && s[0] == kind && UpToZero(s[1..]) == |name|
      && s[1..|name| + 1] == name && s[|name| + 2..] == tail
  {
    var s := Named(kind, name) + tail;
    assert s[1..] == name + [0] + tail;
    ZeroAt(name, tail);
  }

  /** One round of the loop over the fields of an object. */
  lemma FieldRead(kind: byte, name: bytes, s: bytes)
    requires kind != EOO && 0 !in name
    ensures
      var r := Dec(s, kind);
      DecFields(Named(kind, name) + s) == if r.Fail? then Fail else Before(Named(kind, name) + r.out, DecFields(r.rest))
  {
    FieldHead(kind, name, s);
  }

  lemma FieldsJoined(fields: seq<Field>, r: Result, tail: bytes, next: Result, post: bytes, last: bool)
    requires fields != [] && (tail == [] <==> last && |fields| == 1)
    requires Judged(r, Payload(fields[0].value), tail, Good(fields[0].value, tail == []))
    requires r == Done(Payload(fields[0].value), tail) ==>
        Judged(next, FieldBytes(fields[1..]), post, GoodFields(fields[1..], last))
    ensures Judged(if r.Fail? then Fail else Before(Named(Kind(fields[0].value), fields[0].name) + r.out, next),
      FieldBytes(fields), post, GoodFields(fields, last))
  {
    Joined(Named(Kind(fields[0].value), fields[0].name), r, Payload(fields[0].value), tail, next,
        FieldBytes(fields[1..]), post,
      Good(fields[0].value, tail == []), GoodFields(fields[1..], last));
  }

  lemma Regroup(a: bytes, b: bytes, c: bytes, d: bytes, e: bytes)
    ensures a + b + c + d + e == a + (b + (c + d + e))
  {
  }

  lemma FieldStep(fields: seq<Field>, post: bytes, tail: bytes, r: Result)
    requires WfFields(fields) && fields != [] && tail == EncFields(fields[1..]) + [EOO] + post
    requires r == Dec(Enc(fields[0].value) + tail, Kind(fields[0].value))
    ensures DecFields(EncFields(fields) + [EOO] + post) ==
      if r.Fail? then Fail else Before(Named(Kind(fields[0].value), fields[0].name) + r.out, DecFields(r.rest))
  {
    var v, name := fields[0].value, fields[0].name;
    Regroup(Named(Kind(v), name), Enc(v), EncFields(fields[1..]), [EOO], post);
    assert Kind(v) != EOO;
    FieldRead(Kind(v), name, Enc(v) + tail);
  }

  lemma FieldsCombine(fields: seq<Field>, post: bytes, tail: bytes)
    requires WfFields(fields) && fields != [] && tail == EncFields(fields[1..]) + [EOO] + post
    requires Judged(Dec(Enc(fields[0].value) + tail, Kind(fields[0].value)), Payload(fields[0].value), tail,
        Good(fields[0].value, false))
    requires Judged(DecFields(tail), FieldBytes(fields[1..]), post, GoodFields(fields[1..], false))
    ensures Judged(DecFields(EncFields(fields) + [EOO] + post), FieldBytes(fields), post, GoodFields(fields, false))
  {
    var r := Dec(Enc(fields[0].value) + tail, Kind(fields[0].value));
    var next := if r.Fail? then Fail else DecFields(r.rest);
    FieldsJoined(fields, r, tail, next, post, false);
    FieldStep(fields, post, tail, r);
  }

  lemma {:induction false} FieldsDecode(fields: seq<Field>, post: bytes)
    requires WfFields(fields) && forall i :: 0 <= i < |fields| ==> Encodable(fields[i].value)
    ensures Judged(DecFields(EncFields(fields) + [EOO] + post), FieldBytes(fields), post, GoodFields(fields, false))
    decreases fields, |fields|, 1
  {
    if fields == [] {
      assert EncFields(fields) + [EOO] + post == [EOO] + post;
    } else {
      var tail := EncFields(fields[1..]) + [EOO] + post;
      Decodes(fields[0].value, tail);
      FieldsDecode(fields[1..], post);
      FieldsCombine(fields, post, tail);
    }
  }

  /** One round of the loop over the fields of a record. */
  lemma RecordRead(kind: byte, name: bytes, s: bytes)
    requires 0 !in name
    ensures
      var r := Dec(s, kind);
      DecRecord(Named(kind, name) + s) == if r.Fail? then Fail else Before(Named(kind, name) + r.out, DecRecord(r.rest))
  {
    FieldHead(kind, name, s);
  }

  lemma {:induction false} RecordDecodes(fields: seq<Field>)
    requires WfFields(fields) && forall i :: 0 <= i < |fields| ==> Encodable(fields[i].value)
    ensures Judged(DecRecord(EncFields(fields)), FieldBytes(fields), [], GoodFields(fields, true))
    decreases |fields|
  {
    if fields == [] {
    } else {
      var v, name, tail := fields[0].value, fields[0].name, EncFields(fields[1..]);
      var r := Dec(Enc(v) + tail, Kind(v));
      var next := if r.Fail? then Fail else DecRecord(r.rest);
      Decodes(v, tail);
      RecordDecodes(fields[1..]);
      FieldsJoined(fields, r, tail, next, [], true);
      assert EncFields(fields) == Named(Kind(v), name) + (Enc(v) + tail);
      RecordRead(Kind(v), name, Enc(v) + tail);
    }
  }

  lemma BareFirst(items: seq<Value>, kind: byte, from: nat)
    requires items != [] && items[0] == Bare(kind)
    ensures EncItems(items, false) == EncItems(items[1..], false)
    ensures ItemBytes(items, from) == Named(kind, Digits(from)) + ItemBytes(items[1..], from + 1)
  {
    var name := Named(kind, Digits(from));
    assert name + [] == name && [] + [] + EncItems(items[1..], false) == EncItems(items[1..], false);
  }

  /** Arrays of values that take no bytes. */
  lemma {:induction false} BareItemsEncode(items: seq<Value>, kind: byte, from: nat, n: nat)
    requires n == from + |items| && IsBare(kind)
    requires forall i :: 0 <= i < |items| ==> Wf(items[i]) && Kind(items[i]) == kind
    ensures EncItems(items, false) == [] && ItemBytes(items, from) == BareItems(kind, from, n)
    decreases |items|
  {
    if items == [] {
    } else {
      assert items[0] == Bare(kind);
      BareItemsEncode(items[1..], kind, from + 1, n);
      BareFirst(items, kind, from);
    }
  }

  lemma {:induction false} BareItemsDecode(kind: byte, from: nat, n: nat, post: bytes)
    requires from <= n && IsBare(kind)
    ensures DecItems(post, kind, from, n) == if from < n &&
        post == [] then Fail else Done(BareItems(kind, from, n), post)
    decreases n - from
  {
    if from >= n || post == [] {
    } else {
      BareItemsDecode(kind, from + 1, n, post);
      assert Dec(post, kind) == Done([], post);
      ItemRead(post, kind, kind, from, n);
      assert [] + post == post && Named(kind, Digits(from)) + [] == Named(kind, Digits(from));
    }
  }

  /** The array decoder, behind the number of items and their type. */
  lemma ArrayRead(n: nat, kind: byte, body: bytes)
    requires n > 0
    ensures Dec(VarUint(n) + ([kind] + body), ARRAY) ==
      if IsBlank(kind) then if body == [] then Done(Wrap(BareItems(kind, 0, n)), []) else Fail
      else Wrapped(DecItems(body, kind, 0, n))
  {
    CountRoundTrip(n, [kind] + body);
    assert ([kind] + body)[1..] == body;
  }

  lemma ArrayDecodes(items: seq<Value>, post: bytes)
    requires Wf(Arr(items)) && Encodable(Arr(items)) && items != []
    requires ItemsOk(items, ItemKind(items)) ==>
        Judged(DecItems(EncItems(items, ItemKind(items) == MIXED) + post, ItemKind(items), 0, |items|),
      ItemBytes(items, 0), post, GoodItems(items, post == []))
    ensures Judged(Dec(Enc(Arr(items)) + post, ARRAY), Payload(Arr(items)), post, Good(Arr(items), post == []))
  {
    var k := ItemKind(items);
    var body := EncItems(items, k == MIXED) + post;
    assert Enc(Arr(items)) + post == VarUint(|items|) + ([k] + body);
    ArrayRead(|items|, k, body);
    if IsBare(k) {
      BareItemsEncode(items, k, 0, |items|);
      BareItemsDecode(k, 0, |items|, post);
      assert body == post;
    } else {
      WrapJudged(DecItems(body, k, 0, |items|), ItemBytes(items, 0), post, GoodItems(items, post == []));
    }
  }

  lemma ObjectDecodes(fields: seq<Field>, post: bytes)
    requires Judged(DecFields(EncFields(fields) + [EOO] + post), FieldBytes(fields), post, GoodFields(fields, false))
    ensures Judged(Dec(Enc(Obj(fields)) + post, OBJECT), Payload(Obj(fields)), post, Good(Obj(fields), post == []))
  {
    WrapJudged(DecFields(EncFields(fields) + [EOO] + post), FieldBytes(fields), post, GoodFields(fields, false));
  }

  lemma LeafDecodes(v: Value, post: bytes)
    requires Wf(v) && Encodable(v) && !v.Arr? && !v.Obj?
    ensures Judged(Dec(Enc(v) + post, Kind(v)), Payload(v), post, Good(v, post == []))
  {
    assert Dec(Enc(v) + post, Kind(v)) == DecPlain(Enc(v) + post, Kind(v));
    if v.Ref? {
      if 0 in v.text { RefFails(v.text, v.oid, post); } else { RefDecodes(v.text, v.oid, post); }
    } else {
      PlainDecodes(v, post);
    }
  }

  /** Decoding what was encoded, with anything behind it, gives the value back exactly if it is good. */
  lemma {:induction false} Decodes(v: Value, post: bytes)
    requires Wf(v) && Encodable(v)
    ensures Judged(Dec(Enc(v) + post, Kind(v)), Payload(v), post, Good(v, post == []))
    decreases v, 0, 0
  {
    match v {
      case Arr(items) =>
        if items == [] {
          CountRoundTrip(0, post);
        } else {
          if ItemsOk(items, ItemKind(items)) { ItemsDecode(items, ItemKind(items), 0, post); }
          ArrayDecodes(items, post);
        }
      case Obj(fields) =>
        FieldsDecode(fields, post);
        ObjectDecodes(fields, post);
      case _ =>
        LeafDecodes(v, post);
    }
  }

  /** The record codec gives a document back, byte for byte, exactly if the document is good. */
  lemma RoundTrip(fields: seq<Field>)
    requires WfFields(fields) && forall i :: 0 <= i < |fields| ==> Encodable(fields[i].value)
    ensures Wrapped(DecRecord(EncFields(fields))) == Done(Document(fields), []) <==> GoodFields(fields, true)
  {
    RecordDecodes(fields);
    WrapJudged(DecRecord(EncFields(fields)), FieldBytes(fields), [], GoodFields(fields, true));
  }

  // ---- Which documents are good.

  /** Neither an array of nothing but values that take no bytes, nor a reference with a zero byte in its name. */
  predicate Ordinary(v: Value)
    decreases v, 0
  {
    match v
    case Ref(s, _) => 0 !in s
    case Arr(items) => (items == [] || !IsBare(ItemKind(items))) && forall i :: 0 <= i < |items| ==> Ordinary(items[i])
    case Obj(fields) => forall i :: 0 <= i < |fields| ==> Ordinary(fields[i].value)
    case _ => true
  }

  lemma {:induction false} OrdinaryGood(v: Value, last: bool)
    requires Ordinary(v)
    ensures Good(v, last)
    decreases v, 0, 0
  {
    match v {
      case Arr(items) => OrdinaryItems(items, last);
      case Obj(fields) => OrdinaryFields(fields, false);
      case _ =>
    }
  }

  lemma {:induction false} OrdinaryItems(items: seq<Value>, last: bool)
    requires forall i :: 0 <= i < |items| ==> Ordinary(items[i])
    ensures GoodItems(items, last)
    decreases items, |items|, 1
  {
    if items == [] {
    } else {
      OrdinaryGood(items[0], last && |items| == 1);
      OrdinaryItems(items[1..], last);
    }
  }

  lemma {:induction false} OrdinaryFields(fields: seq<Field>, last: bool)
    requires forall i :: 0 <= i < |fields| ==> Ordinary(fields[i].value)
    ensures GoodFields(fields, last)
    decreases fields, |fields|, 1
  {
    if fields == [] {
    } else {
      OrdinaryGood(fields[0].value, last && |fields| == 1);
      OrdinaryFields(fields[1..], last);
    }
  }

  /** Every ordinary document survives the codec byte for byte. */
  lemma OrdinaryRoundTrip(fields: seq<Field>)
    requires WfFields(fields)
    requires forall i :: 0 <= i < |fields| ==> Encodable(fields[i].value) && Ordinary(fields[i].value)
    ensures Wrapped(DecRecord(EncFields(fields))) == Done(Document(fields), [])
  {
    OrdinaryFields(fields, true);
    RoundTrip(fields);
  }

  /** An array holding one null, in front of another field, and an array holding one smallest key at the end. */
  lemma ArraysLost()
    ensures
      var nulls := [Field([97], Arr([Bare(NULL)])), Field([98], Flag(true))];
      var least := [Field([97], Arr([Bare(MIN_KEY)]))];
      && Wrapped(DecRecord(EncFields(nulls))) != Done(Document(nulls), [])
      && Wrapped(DecRecord(EncFields(least))) != Done(Document(least), [])
  {
    var nulls := [Field([97], Arr([Bare(NULL)])), Field([98], Flag(true))];
    var least := [Field([97], Arr([Bare(MIN_KEY)]))];
    assert !Good(nulls[0].value, false) && !Good(least[0].value, true);
    RoundTrip(nulls);
    RoundTrip(least);
  }

  // ---- The format, by example.

  lemma OneRecordField(name: bytes, value: Value)
    ensures EncFields([Field(name, value)]) == [Kind(value)] + name + [0] + Enc(value)
  {
    var fields := [Field(name, value)];
    assert fields[1..] == [];
    var all := [Kind(value)] + name + [0] + Enc(value);
    assert all + [] == all;
  }

  /** Strings and references lose the length in front, and nothing else but objects and arrays is changed. */
  lemma RecordElements(name: bytes, a: bytes, b: bytes, sub: byte, on: bool)
    requires |a| < 0xF0
    ensures EncFields([Field(name, Flag(on))]) == [8] + name + [0] + [if on then 1 else 0]
    ensures EncFields([Field(name, Bare(10))]) == [10] + name + [0] + []
    ensures EncFields([Field(name, Fixed(16, a))]) == [16] + name + [0] + a
    ensures EncFields([Field(name, Text(2, a))]) == [2] + name + [0] + (a + [0])
    ensures EncFields([Field(name, Ref(a, b))]) == [12] + name + [0] + (a + [0] + b)
    ensures EncFields([Field(name, Binary(sub, a))]) == [5] + name + [0] + ([|a|, 0, 0, 0] + [sub] + a)
    ensures EncFields([Field(name, Regex(a, b))]) == [11] + name + [0] + (a + [0] + b + [0])
    ensures EncFields([Field(name, Scoped(a))]) == [15] + name + [0] + ([|a| + 4, 0, 0, 0] + a)
    ensures EncFields([Field(name, Obj([Field(a, Bare(10))]))]) == [3] + name + [0] + ([10] + a + [0] + [] + [0])
  {
    OneRecordField(name, Flag(on));
    OneRecordField(name, Bare(10));
    OneRecordField(name, Fixed(16, a));
    OneRecordField(name, Text(2, a));
    OneRecordField(name, Ref(a, b));
    OneRecordField(name, Binary(sub, a));
    OneRecordField(name, Regex(a, b));
    OneRecordField(name, Scoped(a));
    OneRecordField(a, Bare(10));
    OneRecordField(name, Obj([Field(a, Bare(10))]));
    ShortLength(|a|);
    ShortLength(|a| + 4);
  }

  lemma TwoItems(v: Value, w: Value, mixed: bool)
    ensures EncItems([v, w], mixed) ==
      (if mixed then [Kind(v)] else []) + Enc(v) + ((if mixed then [Kind(w)] else []) + Enc(w))
  {
    var last: bytes := (if mixed then [Kind(w)] else []) + Enc(w);
    assert EncItems([w], mixed) == last by {
      assert [w][1..] == [] && last + [] == last;
    }
    assert [v, w][1..] == [w];
  }

  /** Arrays: the number of items, their type once if they share it, and otherwise 129 and a type before each. */
  lemma RecordArrays(a: bytes, b: bytes)
    ensures Enc(Arr([])) == [0]
    ensures Enc(Arr([Text(2, a), Text(2, b)])) == [2] + [2] + (a + [0] + (b + [0]))
    ensures Enc(Arr([Text(2, a), Fixed(16, b)])) == [2] + [129] + ([2] + (a + [0]) + ([16] + b))
    ensures VarUint(300) == [0xAC, 2]
  {
    var same, other := [Text(2, a), Text(2, b)], [Text(2, a), Fixed(16, b)];
    assert ItemKind(same) == 2;
    assert Kind(other[1]) != Kind(other[0]);
    assert ItemKind(other) == 129;
    TwoItems(same[0], same[1], false);
    TwoItems(other[0], other[1], true);
    assert [] + (a + [0]) == a + [0] && [] + (b + [0]) == b + [0];
    assert VarUint(2) == [2];
    assert VarUint(300) == [0xAC] + VarUint(2);
  }
}
