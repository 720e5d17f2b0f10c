/** The other direction: whatever the parser accepts is a text of the grammar. */
module JsonAccepts {
  import opened Bson
  import opened JsonStrings
  import opened Json
  import opened JsonNumbers
  import opened JsonObjects
  import opened JsonGrammar

  predicate StartsBlank(s: bytes) {
    s != [] && (s[0] in {9, 10, 13, 32} || (|s| >= 3 && s[0] == 0xEF && s[1] == 0xBB && s[2] == 0xBF))
  }

  function StartLength(s: bytes): (k: nat)
    requires StartsBlank(s)
    ensures 0 < k <= |s|
  {
    if s[0] == 0xEF then 3 else 1
  }

  lemma StartSkipped(s: bytes)
    requires StartsBlank(s)
    ensures Scan(s) == Scan(s[StartLength(s)..])
  {
    if s[0] == 0xEF { assert [0xEF, 0xBB, 0xBF] <= s; }
  }

  lemma BlankMore(s: bytes, w: bytes)
    requires StartsBlank(s) && Blank(w)
    ensures Blank(s[..StartLength(s)] + w)
  {
    var k := StartLength(s);
    var more := s[..k] + w;
    assert more[k..] == w && forall i :: 0 <= i < k ==> more[i] == s[i];
  }

  /** The blanks in front of a token. */
  lemma {:induction false} SkipBlanks(s: bytes) returns (w: bytes, t: bytes)
    ensures Blank(w) && s == w + t && Scan(s) == Scan(t) && !StartsBlank(t)
    decreases |s|
  {
    if !StartsBlank(s) {
      w, t := [], s;
    } else {
      var k := StartLength(s);
      w, t := SkipBlanks(s[k..]);
      StartSkipped(s);
      BlankMore(s, w);
      Assoc(s[..k], w, t);
      w := s[..k] + w;
    }
  }

  /** The bytes of a token. */
  function Lexeme(token: Token): bytes {
    match token
    case LiteralNull => [110, 117, 108, 108]
    case LiteralTrue => [116, 114, 117, 101]
    case LiteralFalse => [102, 97, 108, 115, 101]
    case ValueString(body) => [34] + body + [34]
    case ValueNumber(text, _) => text
    case BeginArray => [91]
    case EndArray => [93]
    case BeginObject => [123]
    case EndObject => [125]
    case NameSeparator => [58]
    case ValueSeparator => [44]
    case _ => []
  }

  predicate IsToken(token: Token) { !token.ParseError? && !token.EndOfInput? }

  /** `r` begins with a token whose bytes `t` begins with. */
  ghost predicate Found(t: bytes, r: Lexed) {
    && t == Lexeme(r.token) + r.rest
    && (r.token.ValueString? ==> IsBody(r.token.body))
    && (r.token.ValueNumber? ==> IsNumber(t, r))
  }

  predicate IsNumber(t: bytes, r: Lexed) {
    var n := NumberLength(t);
    n > 0 && r == Lexed(ValueNumber(t[..n], t[n..]), t[n..])
  }

  lemma ScansString(t: bytes)
    requires t != [] && t[0] == 34
    ensures Scan(t) == ScanString(t[1..])
  {
    var r := ScanString(t[1..]);
    assert Scan(t) == r;
  }

  lemma ScansMark(t: bytes)
    requires !StartsBlank(t) && t != [] && t[0] !in {0, 110, 116, 102, 34, 45} && !IsDigit(t[0])
    ensures Scan(t) == Lexed(Punctuation(t[0]), t[1..])
  {
    var c := t[0];
    assert !IsWhite(c) && !(c == 0xEF && [0xEF, 0xBB, 0xBF] <= t);
  }

  lemma StringFound(t: bytes, r: Lexed)
    requires t != [] && t[0] == 34 && r == ScanString(t[1..]) && IsToken(r.token)
    ensures Found(t, r)
  {
    var u := t[1..];
    var n := BodyLength(u);
    QuotedAt(t, n);
  }

  lemma QuotedAt(t: bytes, n: nat)
    requires n + 1 < |t| && t[0] == 34 && t[1..][n] == 34
    ensures t == [34] + t[1..][..n] + [34] + t[1..][n + 1..]
  {
  }

  lemma NumberFound(t: bytes, r: Lexed)
    requires t != [] && r == ScanNumber(t) && IsToken(r.token)
    ensures Found(t, r)
  {
    var n := NumberLength(t);
    assert t == t[..n] + t[n..];
  }

  lemma WordFound(t: bytes)
    requires t != [] && t[0] in {110, 116, 102} && IsToken(Scan(t).token)
    ensures Found(t, Scan(t))
  {
  }

  lemma MarkFound(t: bytes, r: Lexed)
    requires t != [] && r == Lexed(Punctuation(t[0]), t[1..]) && IsToken(r.token)
    ensures Found(t, r)
  {
    assert t == [t[0]] + t[1..];
  }

  /** A token is scanned from its bytes. */
  lemma TokenFound(t: bytes)
    requires !StartsBlank(t) && IsToken(Scan(t).token)
    ensures Found(t, Scan(t))
  {
    var r := Scan(t);
    if t[0] == 34 {
      ScansString(t);
      StringFound(t, r);
    } else if t[0] == 45 || IsDigit(t[0]) {
      ScansNumber(t);
      NumberFound(t, r);
    } else if t[0] in {110, 116, 102} {
      WordFound(t);
    } else {
      assert t[0] != 0;
      ScansMark(t);
      MarkFound(t, r);
    }
  }

  /** The end of the input. */
  ghost predicate IsEnd(s: bytes) {
    exists w, z :: s == w + z && Blank(w) && (z == [] || z[0] == 0)
  }

  lemma EndExactly(s: bytes)
    ensures Scan(s).token.EndOfInput? <==> IsEnd(s)
  {
    if Scan(s).token.EndOfInput? {
      var w, z := SkipBlanks(s);
      EndFound(z);
    }
    if IsEnd(s) {
      var w, z :| s == w + z && Blank(w) && (z == [] || z[0] == 0);
      ScanBlank(w, z);
    }
  }

  lemma EndFound(t: bytes)
    requires !StartsBlank(t) && Scan(t).token.EndOfInput?
    ensures t == [] || t[0] == 0
  {
  }

  /** The blanks before the next token, and the text from there on. */
  lemma TokenAt(s: bytes) returns (w: bytes, t: bytes)
    requires IsToken(Scan(s).token)
    ensures Blank(w) && s == w + t && Found(t, Scan(s))
  {
    w, t := SkipBlanks(s);
    TokenFound(t);
  }

  /** A mark: a comma or a closing bracket. */
  predicate IsMark(at: Lexed, c: byte) { c in {44, 93, 125} && at.token == Punctuation(c) }

  lemma MarkAt(s: bytes, c: byte) returns (w: bytes)
    requires IsMark(Scan(s), c)
    ensures Blank(w) && s == w + ([c] + Scan(s).rest)
  {
    var t;
    w, t := TokenAt(s);
  }

  // ---- Values.

  /** The text of a value, as the parser found it. */
  ghost predicate IsValue(r: Parsed, t: Tree, rest: bytes) {
    Well(t) && r == Done(Sense(t), Scan(rest))
  }

  lemma NumberAccepted(s: bytes, r: Lexed) returns (t: Tree)
    requires r.token.ValueNumber? && IsNumber(s, r) && ParseValue(r).Done?
    ensures IsValue(ParseValue(r), t, r.rest) && Written(t) == r.token.text
  {
    var f := FigureFound(s);
    FigureConverted(f, r.rest);
    t := Number(f);
    NumberStep(r);
  }

  lemma NumberStep(r: Lexed)
    requires r.token.ValueNumber? && ParseValue(r).Done?
    ensures GetNumber(r.token.text, r.token.behind).Whole?
    ensures ParseValue(r) == Done(GetNumber(r.token.text, r.token.behind).value, Scan(r.rest))
  {
  }

  lemma ScalarAccepted(s: bytes, r: Lexed) returns (t: Tree)
    requires Found(s, r) && !r.token.BeginArray? && !r.token.BeginObject? && ParseValue(r).Done?
    ensures IsValue(ParseValue(r), t, r.rest) && Written(t) == Lexeme(r.token)
  {
    if r.token.ValueNumber? {
      t := NumberAccepted(s, r);
    } else {
      t := match r.token
        case LiteralTrue => Truth(true)
        case LiteralFalse => Truth(false)
        case ValueString(body) => Quotation(body)
        case _ => Nothing;
    }
  }

  lemma ListStep(at: Lexed)
    requires at.token.BeginArray? && ParseValue(at).Done?
    ensures
      var next := Scan(at.rest);
      ParseValue(at) == if next.token.EndArray? then Done(Array([]), Scan(next.rest)) else ParseItems([], next)
  {
    var next := Scan(at.rest);
    assert !next.token.ValueSeparator?;
    if !next.token.EndArray? { ItemsFollow(at, next); }
  }

  lemma ItemStep(done: seq<Json>, at: Lexed)
    requires ParseItems(done, at).Done?
    ensures ParseValue(at).Done?
    ensures
      var r := ParseValue(at);
      && (r.at.token.ValueSeparator? || r.at.token.EndArray?)
      && ParseItems(done, at) ==
        if r.at.token.EndArray? then Done(Array(done + [r.value]), Scan(r.at.rest))
        else ParseItems(done + [r.value], Scan(r.at.rest))
  {
  }

  lemma DictStep(at: Lexed)
    requires at.token.BeginObject? && ParseValue(at).Done?
    ensures
      var next := Scan(at.rest);
      ParseValue(at) == if next.token.EndObject? then Done(Object([]), Scan(next.rest)) else ParseMembers([], next)
  {
    var next := Scan(at.rest);
    assert !next.token.ValueSeparator?;
    if !next.token.EndObject? { MembersFollow(at, next); }
  }

  lemma MemberStep(done: seq<Member>, at: Lexed)
    requires ParseMembers(done, at).Done?
    ensures at.token.ValueString? && IsKey(at.token.body) && Scan(at.rest).token.NameSeparator?
    ensures
      var r := ParseValue(Scan(Scan(at.rest).rest));
      r.Done? && (r.at.token.ValueSeparator? || r.at.token.EndObject?)
  {
  }

  lemma ListBuilt(s: bytes, gap: bytes, items: seq<Item>, rest: bytes) returns (t: Tree)
    requires Blank(gap) && WellItems(items)
    requires s == gap + (if items == [] then [93] + rest else ItemsText(items) + ([93] + rest))
    ensures Well(t) && Sense(t) == Array(Senses(items)) && [91] + s == Written(t) + rest
  {
    t := List(gap, items);
    if items == [] { assert [] + ([93] + rest) == [93] + rest; }
    NestedText(91, gap, ItemsText(items), 93, rest);
  }

  lemma DictBuilt(s: bytes, gap: bytes, pairs: seq<Pair>, rest: bytes) returns (t: Tree)
    requires Blank(gap) && WellPairs(pairs)
    requires s == gap + (if pairs == [] then [125] + rest else PairsText(pairs) + ([125] + rest))
    ensures Well(t) && Sense(t) == Object(PutAll([], Given(pairs))) && [123] + s == Written(t) + rest
  {
    t := Dict(gap, pairs);
    if pairs == [] { assert [] + ([125] + rest) == [125] + rest; }
    NestedText(123, gap, PairsText(pairs), 125, rest);
  }

  lemma NestedText(c: byte, gap: bytes, inner: bytes, close: byte, rest: bytes)
    ensures [c] + (gap + (inner + ([close] + rest))) == [c] + (gap + (inner + [close])) + rest
  {
  }

  lemma {:induction false} ValueAccepted(s: bytes) returns (w: bytes, t: Tree, rest: bytes)
    requires ParseValue(Scan(s)).Done?
    ensures Blank(w) && s == w + Written(t) + rest && IsValue(ParseValue(Scan(s)), t, rest)
    decreases Left(Scan(s)), 1
  {
    var at := Scan(s);
    var u;
    w, u := TokenAt(s);
    rest := at.rest;
    if at.token.BeginArray? {
      t, rest := ListAccepted(at);
    } else if at.token.BeginObject? {
      t, rest := DictAccepted(at);
    } else {
      t := ScalarAccepted(u, at);
    }
    Assoc(w, Written(t), rest);
  }

  lemma {:induction false} ListAccepted(at: Lexed) returns (t: Tree, rest: bytes)
    requires at.token.BeginArray? && ParseValue(at).Done?
    ensures [91] + at.rest == Written(t) + rest && IsValue(ParseValue(at), t, rest)
    decreases Left(at), 0
  {
    var next := Scan(at.rest);
    ListStep(at);
    if next.token.EndArray? {
      var gap := MarkAt(at.rest, 93);
      rest := next.rest;
      t := ListBuilt(at.rest, gap, [], rest);
      assert Senses([]) == [];
    } else {
      var items;
      items, rest := ItemsAccepted([], at.rest);
      assert [] + at.rest == at.rest && [] + Senses(items) == Senses(items);
      t := ListBuilt(at.rest, [], items, rest);
    }
  }

  lemma ItemAdded(done: seq<Json>, item: Item, items: seq<Item>, tail: bytes)
    requires Blank(item.before) && Blank(item.after) && Well(item.value) && WellItems(items)
    ensures WellItems([item] + items)
    ensures done + Senses([item] + items) == done + [Sense(item.value)] + Senses(items)
    ensures ItemsText([item] + items) + tail == item.before + (Written(item.value) + (item.after +
      (if items == [] then tail else [44] + (ItemsText(items) + tail))))
  {
    var all := [item] + items;
    assert all[0] == item && all[1..] == items;
    assert WellItems(all);
    SensesFirst(done, all);
    ItemsSplit(all, tail);
  }

  /** A value and the mark behind it. */
  lemma {:induction false} FirstAccepted(s: bytes, c: byte) returns (item: Item)
    requires ParseValue(Scan(s)).Done? && IsMark(ParseValue(Scan(s)).at, c)
    ensures Blank(item.before) && Blank(item.after) && Well(item.value)
    ensures ParseValue(Scan(s)).value == Sense(item.value)
    ensures s == item.before + (Written(item.value) + (item.after + ([c] + ParseValue(Scan(s)).at.rest)))
    decreases Left(Scan(s)), 2
  {
    var before, t, behind := ValueAccepted(s);
    var after := MarkAt(behind, c);
    Assoc(before, Written(t), behind);
    item := Item(before, t, after);
  }

  lemma {:induction false} ItemsAccepted(done: seq<Json>, s: bytes) returns (items: seq<Item>, rest: bytes)
    requires ParseItems(done, Scan(s)).Done?
    ensures items != [] && WellItems(items) && s == ItemsText(items) + ([93] + rest)
    ensures ParseItems(done, Scan(s)) == Done(Array(done + Senses(items)), Scan(rest))
    decreases Left(Scan(s)), 3
  {
    ItemStep(done, Scan(s));
    var mid := ParseValue(Scan(s)).at;
    if mid.token.EndArray? {
      var item := FirstAccepted(s, 93);
      rest := mid.rest;
      ItemAdded(done, item, [], [93] + rest);
      assert done + [Sense(item.value)] + Senses([]) == done + [Sense(item.value)];
      items := [item] + [];
    } else {
      var item := FirstAccepted(s, 44);
      items, rest := ItemsAccepted(done + [Sense(item.value)], mid.rest);
      ItemAdded(done, item, items, [93] + rest);
      items := [item] + items;
    }
  }

  lemma {:induction false} DictAccepted(at: Lexed) returns (t: Tree, rest: bytes)
    requires at.token.BeginObject? && ParseValue(at).Done?
    ensures [123] + at.rest == Written(t) + rest && IsValue(ParseValue(at), t, rest)
    decreases Left(at), 0
  {
    var next := Scan(at.rest);
    DictStep(at);
    if next.token.EndObject? {
      var gap := MarkAt(at.rest, 125);
      rest := next.rest;
      t := DictBuilt(at.rest, gap, [], rest);
      assert Given([]) == [];
    } else {
      var pairs;
      pairs, rest := PairsAccepted([], at.rest);
      assert [] + at.rest == at.rest;
      t := DictBuilt(at.rest, [], pairs, rest);
    }
  }

  /** A key and a colon. */
  lemma KeyAccepted(s: bytes, at: Lexed) returns (before: bytes, colon: bytes)
    requires at == Scan(s) && at.token.ValueString? && Scan(at.rest).token.NameSeparator?
    ensures Blank(before) && Blank(colon)
    ensures s == before + ([34] + at.token.body + [34] + (colon + ([58] + Scan(at.rest).rest)))
  {
    var u, v;
    before, u := TokenAt(s);
    colon, v := TokenAt(at.rest);
  }

  /** A key, a colon, a value and the mark behind it. */
  lemma {:induction false} PairAccepted(s: bytes, at: Lexed, c: byte) returns (p: Pair)
    requires at == Scan(s) && at.token.ValueString? && IsKey(at.token.body) && Scan(at.rest).token.NameSeparator?
    requires
      var r := ParseValue(Scan(Scan(at.rest).rest));
      r.Done? && IsMark(r.at, c)
    ensures Gaps(p) && p.key == at.token.body && Well(p.value)
    ensures
      var r := ParseValue(Scan(Scan(at.rest).rest));
      && r.value == Sense(p.value)
      && s == p.before + ([34] + p.key + [34] + (p.colon + ([58] + (p.space + (Written(p.value) + (p.after +
        ([c] + r.at.rest)))))))
    decreases Left(Scan(s)), 1
  {
    var before, colon := KeyAccepted(s, at);
    var item := FirstAccepted(Scan(at.rest).rest, c);
    p := Pair(before, at.token.body, colon, item.before, item.value, item.after);
  }

  lemma PairAdded(done: seq<Member>, p: Pair, pairs: seq<Pair>, tail: bytes)
    requires Gaps(p) && IsKey(p.key) && Well(p.value) && WellPairs(pairs)
    ensures WellPairs([p] + pairs)
    ensures PutAll(done, Given([p] + pairs)) == PutAll(Put(done, Unescaped(p.key).text, Sense(p.value)), Given(pairs))
    ensures
      var behind := p.after + (if pairs == [] then tail else [44] + (PairsText(pairs) + tail));
      PairsText([p] + pairs) + tail ==
        p.before + ([34] + p.key + [34] + (p.colon + ([58] + (p.space + (Written(p.value) + behind)))))
  {
    var all := [p] + pairs;
    assert all[0] == p && all[1..] == pairs;
    assert WellPairs(all);
    GivenFirst(done, all);
    PairsSplit(all, tail);
  }

  lemma {:induction false} PairsAccepted(done: seq<Member>, s: bytes) returns (pairs: seq<Pair>, rest: bytes)
    requires ParseMembers(done, Scan(s)).Done?
    ensures pairs != [] && WellPairs(pairs) && s == PairsText(pairs) + ([125] + rest)
    ensures ParseMembers(done, Scan(s)) == Done(Object(PutAll(done, Given(pairs))), Scan(rest))
    decreases Left(Scan(s)), 3
  {
    var at := Scan(s);
    MemberStep(done, at);
    var r := ParseValue(Scan(Scan(at.rest).rest));
    NextMember(done, at, at.token.body, Scan(at.rest), r.value, r.at);
    if r.at.token.EndObject? {
      var p := PairAccepted(s, at, 125);
      rest := r.at.rest;
      PairAdded(done, p, [], [125] + rest);
      assert Given([]) == [];
      pairs := [p] + [];
    } else {
      var p := PairAccepted(s, at, 44);
      pairs, rest := PairsAccepted(Put(done, Unescaped(p.key).text, Sense(p.value)), r.at.rest);
      PairAdded(done, p, pairs, [125] + rest);
      pairs := [p] + pairs;
    }
  }

  // ---- The parser accepts exactly the grammar.

  /** `s` is a text of `j`: blanks, a value that stands for `j`, and the end of the input. */
  ghost predicate IsTextOf(s: bytes, j: Json) {
    exists w, t, end :: Blank(w) && Well(t) && Sense(t) == j && IsEnd(end) && s == w + Written(t) + end
  }

  lemma EndFits(s: bytes)
    requires IsEnd(s)
    ensures Fits(s)
  {
    var w, z :| s == w + z && Blank(w) && (z == [] || z[0] == 0);
    assert s == [] || s[0] == (if w == [] then z else w)[0];
  }

  /** A text is parsed to `j` if and only if it is one of `j`. */
  lemma ParseExactly(s: bytes, j: Json)
    ensures Parse(s) == Document(j) <==> IsTextOf(s, j)
  {
    if Parse(s) == Document(j) {
      var w, t, end := ValueAccepted(s);
      EndExactly(end);
    }
    if IsTextOf(s, j) {
      var w, t, end :| Blank(w) && Well(t) && Sense(t) == j && IsEnd(end) && s == w + Written(t) + end;
      Assoc(w, Written(t), end);
      ScanBlank(w, Written(t) + end);
      EndFits(end);
      Reads(t, end);
      EndExactly(end);
    }
  }

  lemma WrittenParses(t: Tree)
    requires Well(t)
    ensures Parse(Written(t)) == Document(Sense(t))
  {
    Reads(t, []);
    assert Written(t) + [] == Written(t);
  }

  /** A parsed object has its members in the order of the keys, each key with the value its text gives it last. */
  lemma ParsedObject(gap: bytes, pairs: seq<Pair>)
    requires Well(Dict(gap, pairs))
    ensures
      var j := Sense(Dict(gap, pairs));
      j.Object? && Ascending(j.members) && forall m :: m in j.members <==> GivenLast(m, Given(pairs))
  {
    LastWins([], Given(pairs));
  }
}
