/** Binary data in a column that ends with a zero byte, or with the record if it is the last one. */
module StrZero {
  import opened Bson
  import opened Codec

  /** Data with a zero byte, and the subtype that would become one, are refused. */
  predicate Storable(sub: byte, data: bytes) { 0 !in data && sub != 255 }

  method EncodeBinData(sub: byte, data: bytes, last: bool) returns (ok: bool, encoded: bytes)
    ensures ok <==> Storable(sub, data)
    ensures ok ==> encoded == Stored(sub, data, last)
  {
    encoded := [];
    ok := UpToZero(data) == |data| && sub != 255;
    if ok {
      encoded := [sub + 1] + data;
      if !last { encoded := encoded + [0]; }
    }
  }

  /** The subtype is stored one higher, in a byte. */
  function SubType(b: byte): byte { if b == 0 then 255 else b - 1 }

  function Stored(sub: byte, data: bytes, last: bool): bytes
    requires sub != 255
  {
    [sub + 1] + data + (if last then [] else [0])
  }

  /** The value as a BSON element, from bytes that begin with a stored one. */
  method DecodeBinData(src: bytes, last: bool) returns (ok: bool, bson: bytes, rest: bytes)
    requires src != []
    ensures var n := UpToZero(src);
      ok <==> (if last then n >= |src| - 1 else 0 < n < |src|)
    ensures ok ==>
      var n := if last then |src| else UpToZero(src);
      && bson == Le32(n - 1) + [SubType(src[0])] + src[1..n]
      && rest == src[if last then n else n + 1..]
  {
    bson, rest := [], [];
    var n := UpToZero(src);
    if last {
      ok := n >= |src| - 1;
      if ok { bson := Le32(|src| - 1) + [SubType(src[0])] + src[1..]; }
    } else {
      ok := 0 < n < |src|;
      if ok { bson, rest := Le32(n - 1) + [SubType(src[0])] + src[1..n], src[n + 1..]; }
    }
  }

  /** Every value that is accepted comes back, whatever follows it; the last one has nothing behind it. */
  method StrZeroRoundTrip(sub: byte, data: bytes, last: bool, post: bytes) returns (stored: bool, ok: bool,
      bson: bytes, rest: bytes)
    requires last ==> post == []
    ensures stored <==> Storable(sub, data)
    ensures stored ==> ok && bson == Payload(Binary(sub, data)) && rest == post
  {
    var encoded;
    ok, bson, rest := false, [], [];
    stored, encoded := EncodeBinData(sub, data, last);
    if stored {
      StoredEnds(sub, data, last, post);
      ok, bson, rest := DecodeBinData(encoded + post, last);
    }
  }

  lemma StoredEnds(sub: byte, data: bytes, last: bool, post: bytes)
    requires Storable(sub, data) && (last ==> post == [])
    ensures
      var s := Stored(sub, data, last) + post;
      && UpToZero(s) == |data| + 1 && s[0] == sub + 1 && s[1..|data| + 1] == data
      && (last ==> |s| == |data| + 1) && (!last ==> |s| > |data| + 1 && s[|data| + 2..] == post)
  {
    var s, a := Stored(sub, data, last) + post, [sub + 1] + data;
    if last {
      assert s == a;
      assert 0 !in a;
    } else {
      assert s == a + [0] + post;
      ZeroAt(a, post);
    }
  }
}
