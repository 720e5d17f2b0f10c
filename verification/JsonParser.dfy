/** The parser as it runs: an object that holds the last token and advances through the text. */
module JsonParser {
  import opened Bson
  import opened JsonStrings
  import opened Json
  import opened JsonAccepts
  import opened JsonLayout

  class Parser {
    var at: Lexed

    constructor (text: bytes)
      ensures at == Scan(text)
    {
      at := Scan(text);
    }

    method GetToken()
      modifies this
      ensures at == Scan(old(at).rest)
    {
      at := Scan(at.rest);
    }

    /** Reads one value; false is a parse error. */
    method ParseInternal() returns (ok: bool, value: Json)
      modifies this
      ensures ok <==> ParseValue(old(at)).Done?
      ensures ok ==> ParseValue(old(at)) == Done(value, at)
      decreases Left(at), 2
    {
      if at.token.BeginObject? {
        ok, value := ParseObject();
      } else if at.token.BeginArray? {
        ok, value := ParseArray();
      } else {
        ok, value := ParseScalar();
      }
    }

    method ParseScalar() returns (ok: bool, value: Json)
      requires !at.token.BeginObject? && !at.token.BeginArray?
      modifies this
      ensures ok <==> ParseValue(old(at)).Done?
      ensures ok ==> ParseValue(old(at)) == Done(value, at)
    {
      var token := at.token;
      ok, value := true, Null;
      match token {
        case LiteralNull =>
        case LiteralTrue => value := Boolean(true);
        case LiteralFalse => value := Boolean(false);
        case ValueString(body) =>
          var r := ReadString(body);
          if r.Bad? { ok := false; } else { value := String(r.text); }
        case ValueNumber(text, behind) =>
          var number := GetNumber(text, behind);
          if number.Wrong? { ok := false; } else { value := number.value; }
        case _ => ok := false;
      }
      GetToken();
    }

    method ReadString(body: bytes) returns (r: Read)
      ensures r == if IsBody(body) then Unescaped(body) else Bad
    {
      r := Bad;
      if IsBody(body) { r := GetString(body); }
    }

    method ParseArray() returns (ok: bool, value: Json)
      requires at.token.BeginArray?
      modifies this
      ensures ok <==> ParseValue(old(at)).Done?
      ensures ok ==> ParseValue(old(at)) == Done(value, at)
      decreases Left(at), 1
    {
      GetToken();
      if at.token.EndArray? {
        GetToken();
        return true, Array([]);
      }
      if at.token.ValueSeparator? {
        return false, Null;
      }
      ok, value := ParseElements();
    }

    /** The loop over the items of an array, from the first on. */
    method ParseElements() returns (ok: bool, value: Json)
      modifies this
      ensures ok <==> ParseItems([], old(at)).Done?
      ensures ok ==> ParseItems([], old(at)) == Done(value, at)
      decreases Left(at), 3
    {
      var items := [];
      while true
        invariant Left(at) <= Left(old(at)) && ParseItems([], old(at)) == ParseItems(items, at)
        decreases Left(at)
      {
        ok, value := ParseInternal();
        if !ok {
          return;
        }
        items := items + [value];
        if !at.token.ValueSeparator? {
          break;
        }
        GetToken();
      }
      ok := at.token.EndArray?;
      if ok {
        GetToken();
        value := Array(items);
      }
    }

    method ParseObject() returns (ok: bool, value: Json)
      requires at.token.BeginObject?
      modifies this
      ensures ok <==> ParseValue(old(at)).Done?
      ensures ok ==> ParseValue(old(at)) == Done(value, at)
      decreases Left(at), 1
    {
      GetToken();
      if at.token.EndObject? {
        GetToken();
        return true, Object([]);
      }
      if at.token.ValueSeparator? {
        return false, Null;
      }
      ok, value := ParsePairs();
    }

    /** The loop over the members of an object, from the first on. */
    method ParsePairs() returns (ok: bool, value: Json)
      modifies this
      ensures ok <==> ParseMembers([], old(at)).Done?
      ensures ok ==> ParseMembers([], old(at)) == Done(value, at)
      decreases Left(at), 3
    {
      var members := [];
      while true
        invariant Left(at) <= Left(old(at)) && ParseMembers([], old(at)) == ParseMembers(members, at)
        decreases Left(at)
      {
        ok, value := false, Null;
        if !at.token.ValueString? {
          return;
        }
        var key := ReadString(at.token.body);
        if key.Bad? {
          return;
        }
        GetToken();
        if !at.token.NameSeparator? {
          return;
        }
        GetToken();
        ok, value := ParseInternal();
        if !ok {
          return;
        }
        members := Put(members, key.text, value);
        if !at.token.ValueSeparator? {
          break;
        }
        GetToken();
      }
      ok := at.token.EndObject?;
      if ok {
        GetToken();
        value := Object(members);
      }
    }
  }

  /** The whole text must be one value: it is accepted if it is a text of some value, which is the result. */
  method ParseText(text: bytes) returns (ok: bool, value: Json)
    ensures ok <==> Parse(text).Document?
    ensures ok ==> Parse(text) == Document(value)
    ensures forall j :: IsTextOf(text, j) <==> ok && j == value
  {
    var parser := new Parser(text);
    ok, value := parser.ParseInternal();
    ok := ok && parser.at.token.EndOfInput?;
    forall j ensures IsTextOf(text, j) <==> ok && j == value {
      ParseExactly(text, j);
    }
  }

  /** What is dumped is read back, with the numbers that are not negative as unsigned ones, and equal. */
  method DumpAndParse(j: Json, layout: Layout) returns (ok: bool, value: Json)
    requires FloatFree(j)
    ensures ok && value == Normal(j) && Equal(value, j)
  {
    JsonRoundTrip(j, layout);
    ok, value := ParseText(Dump(j, layout, 0));
  }
}
