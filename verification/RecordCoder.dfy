/** The record codec as it runs: bytes are appended to a buffer, the reading position moves on, and the length of
    a document is filled in when its end is reached. */
module RecordCoder {
  import opened Bson
  import opened Codec

  class Builder {
    var buf: bytes

    constructor ()
      ensures buf == []
    {
      buf := [];
    }

    method Write(s: bytes)
      modifies this
      ensures buf == old(buf) + s
    {
      buf := buf + s;
    }

    /** Overwrites the four bytes at `at` with a length. */
    method Patch(at: nat, n: nat)
      requires at + 4 <= |buf|
      modifies this
      ensures buf == old(buf)[..at] + Le32(n) + old(buf)[at + 4..]
    {
      buf := buf[..at] + Le32(n) + buf[at + 4..];
    }
  }

  // ---- Encoding.  False is the exception for a string with a zero byte inside.

  method EncodeElemVal(v: Value, encoded: Builder) returns (ok: bool)
    requires Wf(v)
    modifies encoded
    ensures ok <==> Encodable(v)
    ensures ok ==> encoded.buf == old(encoded.buf) + Enc(v)
    decreases v, 0
  {
    ok := true;
    match v {
      case Bare(_) =>
      case Flag(on) => encoded.Write([if on then 1 else 0]);
      case Fixed(_, raw) => encoded.Write(raw);
      case Text(_, s) =>
        ok := UpToZero(s) == |s|;
        encoded.Write(s + [0]);
      case Ref(s, oid) => encoded.Write(s + [0] + oid);
      case Binary(sub, raw) => encoded.Write(Le32(|raw|) + [sub] + raw);
      case Regex(p, o) => encoded.Write(p + [0] + o + [0]);
      case Scoped(raw) => encoded.Write(Le32(|raw| + 4) + raw);
      case Arr(items) => ok := EncodeArray(items, encoded);
      case Obj(fields) => ok := EncodeObject(fields, encoded);
    }
  }

  /** The common type of the items, or MIXED. */
  method ScanKinds(items: seq<Value>) returns (cnt: nat, kind: byte)
    requires forall i :: 0 <= i < |items| ==> Wf(items[i])
    ensures cnt == |items| && (items != [] ==> kind == ItemKind(items))
  {
    cnt, kind := 0, 128;
    while cnt < |items|
      invariant cnt <= |items| && (cnt == 0 <==> kind == 128)
      invariant cnt > 0 ==> kind == ItemKind(items[..cnt])
    {
      if kind == 128 {
        kind := Kind(items[cnt]);
      } else if Kind(items[cnt]) != kind {
        kind := MIXED;
      }
      cnt := cnt + 1;
    }
    assert items[..cnt] == items;
  }

  method EncodeArray(items: seq<Value>, encoded: Builder) returns (ok: bool)
    requires Wf(Arr(items))
    modifies encoded
    ensures ok <==> Encodable(Arr(items))
    ensures ok ==> encoded.buf == old(encoded.buf) + Enc(Arr(items))
    decreases items, 1
  {
    var cnt, kind := ScanKinds(items);
    encoded.Write(VarUint(cnt));
    if cnt == 0 {
      return true;
    }
    encoded.Write([kind]);
    ok := EncodeItems(items, kind == MIXED, encoded);
    assert old(encoded.buf) + VarUint(cnt) + [kind] + EncItems(items, kind == MIXED) ==
      old(encoded.buf) + (VarUint(cnt) + [kind] + EncItems(items, kind == MIXED));
  }

  lemma FourParts(a: bytes, b: bytes, c: bytes, d: bytes)
    ensures a + b + c + d == a + (b + c + d)
  {
  }

  method EncodeItems(items: seq<Value>, mixed: bool, encoded: Builder) returns (ok: bool)
    requires forall i :: 0 <= i < |items| ==> Wf(items[i])
    modifies encoded
    ensures ok <==> forall i :: 0 <= i < |items| ==> Encodable(items[i])
    ensures ok ==> encoded.buf == old(encoded.buf) + EncItems(items, mixed)
    decreases items, 0
  {
    ghost var whole := encoded.buf + EncItems(items, mixed);
    for i := 0 to |items|
      invariant forall j :: 0 <= j < i ==> Encodable(items[j])
      invariant encoded.buf + EncItems(items[i..], mixed) == whole
    {
      ghost var before := encoded.buf;
      ghost var head: bytes := if mixed then [Kind(items[i])] else [];
      if mixed { encoded.Write([Kind(items[i])]); }
      assert encoded.buf == before + head;
      ok := EncodeElemVal(items[i], encoded);
      if !ok { return; }
      assert items[i..][1..] == items[i + 1..];
      FourParts(before, head, Enc(items[i]), EncItems(items[i + 1..], mixed));
    }
    ok := true;
  }

  method EncodeObject(fields: seq<Field>, encoded: Builder) returns (ok: bool)
    requires WfFields(fields)
    modifies encoded
    ensures ok <==> Encodable(Obj(fields))
    ensures ok ==> encoded.buf == old(encoded.buf) + Enc(Obj(fields))
    decreases fields, 1
  {
    ok := EncodeFields(fields, encoded);
    encoded.Write([EOO]);
  }

  /** The fields of a record or an object, one after the other. */
  method EncodeFields(fields: seq<Field>, encoded: Builder) returns (ok: bool)
    requires WfFields(fields)
    modifies encoded
    ensures ok <==> forall i :: 0 <= i < |fields| ==> Encodable(fields[i].value)
    ensures ok ==> encoded.buf == old(encoded.buf) + EncFields(fields)
    decreases fields, 0
  {
    ghost var whole := encoded.buf + EncFields(fields);
    for i := 0 to |fields|
      invariant forall j :: 0 <= j < i ==> Encodable(fields[j].value)
      invariant encoded.buf + EncFields(fields[i..]) == whole
    {
      ghost var before, head := encoded.buf, Named(Kind(fields[i].value), fields[i].name);
      encoded.Write(Named(Kind(fields[i].value), fields[i].name));
      ok := EncodeElemVal(fields[i].value, encoded);
      if !ok { return; }
      assert fields[i..][1..] == fields[i + 1..];
      FourParts(before, head, Enc(fields[i].value), EncFields(fields[i + 1..]));
    }
    ok := true;
  }

  // ---- Decoding.  False is an exception or a failed check.

  /** The reader has moved on and the buffer has grown as `r` says. */
  twostate predicate Reads(bb: Builder, src: bytes, pos: nat, ok: bool, pos': nat, r: Result)
    reads bb
  {
    (ok <==> r.Done?) && (ok ==> pos <= pos' <= |src| && src[pos'..] == r.rest && bb.buf == old(bb.buf) + r.out)
  }

  lemma BeforeTwice(a: bytes, b: bytes, r: Result)
    ensures Before(a, Before(b, r)) == Before(a + b, r)
  {
    if r.Done? { assert a + (b + r.out) == a + b + r.out; }
  }

  lemma FieldsAdvance(whole: Result, out: bytes, s: bytes)
    requires whole == Before(out, DecFields(s)) && s != [] && s[0] != EOO
    ensures var r := DecField(s); whole == if r.Fail? then Fail else Before(out + r.out, DecFields(r.rest))
  {
    var r := DecField(s);
    if r.Done? { BeforeTwice(out, r.out, DecFields(r.rest)); }
  }

  lemma RecordAdvance(whole: Result, out: bytes, s: bytes)
    requires whole == Before(out, DecRecord(s)) && s != []
    ensures var r := DecField(s); whole == if r.Fail? then Fail else Before(out + r.out, DecRecord(r.rest))
  {
    var r := DecField(s);
    if r.Done? { BeforeTwice(out, r.out, DecRecord(r.rest)); }
  }

  lemma ItemsAdvance(whole: Result, out: bytes, s: bytes, itemKind: byte, i: nat, n: nat)
    requires i < n && whole == Before(out, DecItems(s, itemKind, i, n)) && s != []
    ensures var r := DecItem(s, itemKind, i);
      whole == if r.Fail? then Fail else Before(out + r.out, DecItems(r.rest, itemKind, i + 1, n))
  {
    var r := DecItem(s, itemKind, i);
    if r.Done? { BeforeTwice(out, r.out, DecItems(r.rest, itemKind, i + 1, n)); }
  }

  /** Filling in the length of what was written behind the four reserved bytes makes it a document. */
  lemma Patched(before: bytes, body: bytes, buf: bytes)
    requires buf == before + Le32(0) + body + [EOO]
    ensures buf[..|before|] + Le32(|buf| - |before|) + buf[|before| + 4..] == before + Wrap(body)
  {
    assert buf[..|before|] == before && buf[|before| + 4..] == body + [EOO];
  }

  method DecodeElemVal(bb: Builder, src: bytes, pos: nat, kind: byte) returns (ok: bool, pos': nat)
    requires pos <= |src|
    modifies bb
    ensures Reads(bb, src, pos, ok, pos', Dec(src[pos..], kind))
    decreases |src| - pos, 0, 3
  {
    if kind == OBJECT {
      ok, pos' := DecodeObject(bb, src, pos);
    } else if kind == ARRAY {
      ok, pos' := DecodeArray(bb, src, pos);
    } else {
      ok, pos' := DecodePlain(bb, src, pos, kind);
    }
  }

  /** Copies the next `n` bytes. */
  method Copy(bb: Builder, src: bytes, pos: nat, n: nat) returns (ok: bool, pos': nat)
    requires pos <= |src|
    modifies bb
    ensures Reads(bb, src, pos, ok, pos', Take(src[pos..], n))
  {
    ok, pos' := pos + n <= |src|, pos;
    if ok {
      assert src[pos..][..n] == src[pos..pos + n] && src[pos..][n..] == src[pos + n..];
      bb.Write(src[pos..pos + n]);
      pos' := pos + n;
    }
  }

  /** Copies the next `n` bytes behind the length of a string. */
  method CopyText(bb: Builder, src: bytes, pos: nat, len: nat, n: nat) returns (ok: bool, pos': nat)
    requires pos <= |src|
    modifies bb
    ensures Reads(bb, src, pos, ok, pos', Before(Le32(len), Take(src[pos..], n)))
  {
    bb.Write(Le32(len));
    ok, pos' := Copy(bb, src, pos, n);
    if ok { ThreeParts(old(bb.buf), Le32(len), Take(src[pos..], n).out); }
  }

  /** Values without parts. */
  method DecodePlain(bb: Builder, src: bytes, pos: nat, kind: byte) returns (ok: bool, pos': nat)
    requires pos <= |src|
    modifies bb
    ensures Reads(bb, src, pos, ok, pos', DecPlain(src[pos..], kind))
  {
    ok, pos' := false, pos;
    if kind in {UNDEFINED, NULL, MAX_KEY, MIN_KEY} {
      ok := true;
    } else if kind == BOOL {
      if pos < |src| {
        assert src[pos..][1..] == src[pos + 1..];
        bb.Write([if src[pos] == 0 then 0 else 1]);
        ok, pos' := true, pos + 1;
      }
    } else if Width(kind) > 0 {
      ok, pos' := Copy(bb, src, pos, Width(kind));
    } else if kind in {2, 13, 14} {
      var len := UpToZero(src[pos..]);
      ok, pos' := CopyText(bb, src, pos, len + 1, len + 1);
    } else if kind == DB_REF {
      var len := UpToZero(src[pos..]);
      ok, pos' := CopyText(bb, src, pos, len + 1, len + 1 + 12);
    } else if kind == CODE_W_SCOPE {
      if pos + 4 <= |src| { ok, pos' := Copy(bb, src, pos, Read32(src[pos..])); }
    } else if kind == BIN_DATA {
      if pos + 5 <= |src| { ok, pos' := Copy(bb, src, pos, 5 + Read32(src[pos..])); }
    } else if kind == REG_EX {
      var len1 := UpToZero(src[pos..]);
      if pos + len1 + 1 <= |src| {
        assert src[pos..][len1 + 1..] == src[pos + len1 + 1..];
        var len2 := UpToZero(src[pos + len1 + 1..]);
        ok, pos' := Copy(bb, src, pos, len1 + len2 + 2);
      }
    }
  }

  /** One field of an object or a record. */
  method DecodeField(bb: Builder, src: bytes, pos: nat) returns (ok: bool, pos': nat)
    requires pos < |src|
    modifies bb
    ensures Reads(bb, src, pos, ok, pos', DecField(src[pos..])) && (ok ==> pos < pos')
    decreases |src| - pos, 0, 0
  {
    FieldAt(src, pos);
    var n := UpToZero(src[pos + 1..]);
    if pos + 1 + n >= |src| {
      return false, pos;
    }
    ok, pos' := DecodeNamed(bb, src, pos + n + 2, src[pos], src[pos + 1..pos + 1 + n]);
  }

  /** The type and name of an element, and its value. */
  method DecodeNamed(bb: Builder, src: bytes, pos: nat, kind: byte, name: bytes) returns (ok: bool, pos': nat)
    requires pos <= |src|
    modifies bb
    ensures Reads(bb, src, pos, ok, pos', Before(Named(kind, name), Dec(src[pos..], kind)))
    decreases |src| - pos, 0, 4
  {
    bb.Write([kind]);
    bb.Write(name + [0]);
    assert bb.buf == old(bb.buf) + Named(kind, name);
    ghost var r := Dec(src[pos..], kind);
    ok, pos' := DecodeElemVal(bb, src, pos, kind);
    ThreeParts(old(bb.buf), Named(kind, name), if r.Done? then r.out else []);
  }

  lemma ThreeParts(a: bytes, b: bytes, c: bytes)
    ensures a + b + c == a + (b + c)
  {
  }

  lemma FieldAt(src: bytes, pos: nat)
    requires pos < |src|
    ensures
      var n := UpToZero(src[pos + 1..]);
      DecField(src[pos..]) == if pos + 1 + n >= |src| then Fail
        else Before(Named(src[pos], src[pos + 1..pos + 1 + n]), Dec(src[pos + n + 2..], src[pos]))
  {
    var s, n := src[pos..], UpToZero(src[pos + 1..]);
    assert s[1..] == src[pos + 1..];
    if n + 1 < |s| {
      assert s[1..n + 1] == src[pos + 1..pos + 1 + n] && s[n + 2..] == src[pos + n + 2..];
    }
  }

  /** The fields of an object and its end marker. */
  method DecodeFields(bb: Builder, src: bytes, pos: nat) returns (ok: bool, pos': nat)
    requires pos <= |src|
    modifies bb
    ensures Reads(bb, src, pos, ok, pos', Closed(DecFields(src[pos..])))
    decreases |src| - pos, 0, 1
  {
    ghost var whole, out: bytes := DecFields(src[pos..]), [];
    pos' := pos;
    while pos' < |src| && src[pos'] != EOO
      invariant pos <= pos' <= |src| && bb.buf == old(bb.buf) + out
      invariant whole == Before(out, DecFields(src[pos'..]))
      decreases |src| - pos'
    {
      ghost var before, r := bb.buf, DecField(src[pos'..]);
      FieldsAdvance(whole, out, src[pos'..]);
      ok, pos' := DecodeField(bb, src, pos');
      if !ok { return; }
      ThreeParts(old(bb.buf), out, r.out);
      out := out + r.out;
    }
    if pos' >= |src| {
      return false, pos';
    }
    bb.Write([EOO]);
    pos' := pos' + 1;
    ok := true;
  }

  function Closed(r: Result): Result { if r.Fail? then Fail else Done(r.out + [EOO], r.rest) }

  method DecodeObject(bb: Builder, src: bytes, pos: nat) returns (ok: bool, pos': nat)
    requires pos <= |src|
    modifies bb
    ensures Reads(bb, src, pos, ok, pos', Dec(src[pos..], OBJECT))
    decreases |src| - pos, 0, 2
  {
    var at := |bb.buf|;
    bb.Write(Le32(0));
    ok, pos' := DecodeFields(bb, src, pos);
    if !ok { return; }
    ThreeParts(old(bb.buf) + Le32(0), DecFields(src[pos..]).out, [EOO]);
    Patched(old(bb.buf), DecFields(src[pos..]).out, bb.buf);
    bb.Patch(at, |bb.buf| - at);
  }

  method DecodeArray(bb: Builder, src: bytes, pos: nat) returns (ok: bool, pos': nat)
    requires pos <= |src|
    modifies bb
    ensures Reads(bb, src, pos, ok, pos', Dec(src[pos..], ARRAY))
    decreases |src| - pos, 0, 1
  {
    var c := LoadVar(src[pos..]);
    if c.NoCount? { return false, pos; }
    CountSuffix(src[pos..]);
    pos' := |src| - |c.left|;
    assert src[pos'..] == c.left;
    if c.count == 0 {
      bb.Write(Le32(5) + [EOO]);
      assert Le32(5) + [EOO] == Wrap([]);
      return true, pos';
    }
    if pos' >= |src| { return false, pos'; }
    ok, pos' := DecodeItemsOf(bb, src, pos' + 1, src[pos'], c.count);
  }

  /** The items of an array, as a document. */
  method DecodeItemsOf(bb: Builder, src: bytes, pos: nat, itemKind: byte, n: nat) returns (ok: bool, pos': nat)
    requires pos <= |src| && n > 0
    modifies bb
    ensures Reads(bb, src, pos, ok, pos', ItemsOf(src[pos..], itemKind, n))
    decreases |src| - pos, 2, 0
  {
    var at := |bb.buf|;
    bb.Write(Le32(0));
    pos' := pos;
    ghost var body;
    if IsBlank(itemKind) {
      if pos' != |src| { return false, pos'; }
      WriteBlanks(bb, itemKind, n);
      body := BareItems(itemKind, 0, n);
    } else {
      ok, pos' := DecodeItems(bb, src, pos', itemKind, n);
      if !ok { return; }
      body := DecItems(src[pos..], itemKind, 0, n).out;
    }
    bb.Write([EOO]);
    Patched(old(bb.buf), body, bb.buf);
    bb.Patch(at, |bb.buf| - at);
    ok := true;
  }

  function ItemsOf(s: bytes, itemKind: byte, n: nat): Result {
    if IsBlank(itemKind) then if s == [] then Done(Wrap(BareItems(itemKind, 0, n)), []) else Fail
    else Wrapped(DecItems(s, itemKind, 0, n))
  }

  lemma {:induction false} CountSuffix(s: bytes)
    ensures var c := LoadVar(s); c.Counted? ==> c.left == s[|s| - |c.left|..]
  {
    if s == [] || s[0] < 128 {
    } else {
      CountSuffix(s[1..]);
    }
  }

  method WriteBlanks(bb: Builder, kind: byte, n: nat)
    modifies bb
    ensures bb.buf == old(bb.buf) + BareItems(kind, 0, n)
  {
    for i := 0 to n
      invariant bb.buf + BareItems(kind, i, n) == old(bb.buf) + BareItems(kind, 0, n)
    {
      bb.Write(Named(kind, Digits(i)));
    }
  }

  method DecodeItem(bb: Builder, src: bytes, pos: nat, itemKind: byte, i: nat) returns (ok: bool, pos': nat)
    requires pos < |src|
    modifies bb
    ensures Reads(bb, src, pos, ok, pos', DecItem(src[pos..], itemKind, i))
    decreases |src| - pos, 0, 5
  {
    var kind, p := itemKind, pos;
    if itemKind == MIXED {
      kind, p := src[pos], pos + 1;
      assert src[pos..][1..] == src[p..];
    }
    ok, pos' := DecodeNamed(bb, src, p, kind, Digits(i));
  }

  method DecodeItems(bb: Builder, src: bytes, pos: nat, itemKind: byte, n: nat) returns (ok: bool, pos': nat)
    requires pos <= |src|
    modifies bb
    ensures Reads(bb, src, pos, ok, pos', DecItems(src[pos..], itemKind, 0, n))
    decreases |src| - pos, 1, 0
  {
    ghost var whole, out: bytes := DecItems(src[pos..], itemKind, 0, n), [];
    pos' := pos;
    for i := 0 to n
      invariant pos <= pos' <= |src| && bb.buf == old(bb.buf) + out
      invariant whole == Before(out, DecItems(src[pos'..], itemKind, i, n))
    {
      if pos' >= |src| { return false, pos'; }
      ghost var r := DecItem(src[pos'..], itemKind, i);
      ItemsAdvance(whole, out, src[pos'..], itemKind, i, n);
      ok, pos' := DecodeItem(bb, src, pos', itemKind, i);
      if !ok { return; }
      out := out + r.out;
    }
    ok := true;
  }

  /** The fields of a record. */
  method DecodeRecord(bb: Builder, src: bytes) returns (ok: bool)
    modifies bb
    ensures ok <==> DecRecord(src).Done?
    ensures ok ==> bb.buf == old(bb.buf) + DecRecord(src).out
  {
    ghost var whole, out: bytes := DecRecord(src), [];
    var pos := 0;
    assert src[0..] == src;
    while pos < |src|
      invariant pos <= |src| && bb.buf == old(bb.buf) + out
      invariant whole == Before(out, DecRecord(src[pos..]))
      decreases |src| - pos
    {
      ghost var r := DecField(src[pos..]);
      RecordAdvance(whole, out, src[pos..]);
      ok, pos := DecodeField(bb, src, pos);
      if !ok { return; }
      ThreeParts(old(bb.buf), out, r.out);
      out := out + r.out;
    }
    ok := true;
  }

  /** A whole record. */
  method Decode(src: bytes) returns (ok: bool, bson: bytes)
    ensures ok <==> DecRecord(src).Done?
    ensures ok ==> bson == Wrap(DecRecord(src).out)
  {
    bson := [];
    var bb := new Builder();
    bb.Write(Le32(0));
    ok := DecodeRecord(bb, src);
    if ok {
      bb.Write([EOO]);
      Patched([], DecRecord(src).out, bb.buf);
      bb.Patch(0, |bb.buf|);
      bson := bb.buf;
    }
  }

  /** Storing a document and reading it back. */
  method StoreAndLoad(fields: seq<Field>) returns (stored: bool, loaded: bool, bson: bytes)
    requires WfFields(fields)
    ensures stored <==> forall i :: 0 <= i < |fields| ==> Encodable(fields[i].value)
    ensures stored ==> (loaded && bson == Document(fields) <==> GoodFields(fields, true))
  {
    var encoded := new Builder();
    loaded, bson := false, [];
    stored := EncodeFields(fields, encoded);
    if stored {
      assert encoded.buf == EncFields(fields);
      loaded, bson := Decode(encoded.buf);
      RoundTrip(fields);
    }
  }
}
