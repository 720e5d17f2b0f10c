/** The grammar of RFC 7159, with byte order marks as blanks: texts as trees with their blanks, what they stand for, and
    the proof that the parser accepts them all and gives them this meaning. */
module JsonGrammar {
  import opened Bson
  import opened JsonStrings
  import opened Json
  import opened JsonNumbers
  import opened JsonObjects

  /** A value as it is written. */
  datatype Tree =
    | Nothing
    | Truth(on: bool)
    | Number(figure: Figure)
    | Quotation(body: bytes)
    | List(gap: bytes, items: seq<Item>)
    | Dict(gap: bytes, pairs: seq<Pair>)

  datatype Item = Item(before: bytes, value: Tree, after: bytes)

  datatype Pair = Pair(before: bytes, key: bytes, colon: bytes, space: bytes, value: Tree, after: bytes)

  /** Tabs, line ends and spaces, and byte order marks. */
  predicate Blank(w: bytes)
    decreases |w|
  {
    || w == []
    || (w[0] in {9, 10, 13, 32} && Blank(w[1..]))
    || (|w| >= 3 && w[0] == 0xEF && w[1] == 0xBB && w[2] == 0xBF && Blank(w[3..]))
  }

  function Written(t: Tree): bytes
    decreases t, 0
  {
    match t
    case Nothing => [110, 117, 108, 108]
    case Truth(on) => if on then [116, 114, 117, 101] else [102, 97, 108, 115, 101]
    case Number(figure) => FigureText(figure)
    case Quotation(body) => [34] + body + [34]
    case List(gap, items) => [91] + (gap + (ItemsText(items) + [93]))
    case Dict(gap, pairs) => [123] + (gap + (PairsText(pairs) + [125]))
  }

  /** Items with commas between them. */
  function ItemsText(items: seq<Item>): bytes
    decreases items, |items|
  {
    if items == [] then [] else
      var first := items[0].before + (Written(items[0].value) + items[0].after);
      first + More(|items|, ItemsText(items[1..]))
  }

  /** A comma and what follows, unless there is only one. */
  function More(n: nat, rest: bytes): bytes { if n == 1 then [] else [44] + rest }

  function PairsText(pairs: seq<Pair>): bytes
    decreases pairs, |pairs|
  {
    if pairs == [] then [] else
      PairText(pairs[0], Written(pairs[0].value)) + More(|pairs|, PairsText(pairs[1..]))
  }

  /** A key, a colon and a value. */
  function PairText(p: Pair, value: bytes): bytes {
    p.before + ([34] + p.key + [34] + (p.colon + ([58] + (p.space + (value + p.after)))))
  }

  predicate IsKey(body: bytes) { IsBody(body) && Unescaped(body).Good? }

  predicate Well(t: Tree)
    decreases t
  {
    match t
    case Number(figure) => IsFigure(figure)
    case Quotation(body) => IsKey(body)
    case List(gap, items) => Blank(gap) && WellItems(items)
    case Dict(gap, pairs) => Blank(gap) && WellPairs(pairs)
    case _ => true
  }

  predicate WellItems(items: seq<Item>)
    decreases items
  {
    forall i :: 0 <= i < |items| ==> Blank(items[i].before) && Blank(items[i].after) && Well(items[i].value)
  }

  predicate WellPairs(pairs: seq<Pair>)
    decreases pairs
  {
    forall i :: 0 <= i < |pairs| ==> Gaps(pairs[i]) && IsKey(pairs[i].key) && Well(pairs[i].value)
  }

  predicate Gaps(p: Pair) { Blank(p.before) && Blank(p.colon) && Blank(p.space) && Blank(p.after) }

  /** What a text stands for; in an object the last value of a key counts. */
  function Sense(t: Tree): Json
    requires Well(t)
    decreases t
  {
    match t
    case Nothing => Null
    case Truth(on) => Boolean(on)
    case Number(figure) => FigureValue(figure)
    case Quotation(body) => String(Unescaped(body).text)
    case List(_, items) => Array(Senses(items))
    case Dict(_, pairs) => Object(PutAll([], Given(pairs)))
  }

  function Senses(items: seq<Item>): seq<Json>
    requires WellItems(items)
    decreases items
  {
    seq(|items|, i requires 0 <= i < |items| => Sense(items[i].value))
  }

  function Given(pairs: seq<Pair>): seq<Member>
    requires WellPairs(pairs)
    decreases pairs
  {
    seq(|pairs|, i requires 0 <= i < |pairs| => Member(Unescaped(pairs[i].key).text, Sense(pairs[i].value)))
  }

  // ---- Tokens and their texts.

  /** The length of the first white space or byte order mark. */
  function BlankLength(w: bytes): (k: nat)
    requires Blank(w) && w != []
    ensures 0 < k <= |w| && Blank(w[k..])
  {
    if w[0] == 0xEF then 3 else 1
  }

  lemma ScanSkip(w: bytes, s: bytes, k: nat)
    requires Blank(w) && w != [] && k == BlankLength(w)
    ensures Scan(w + s) == Scan(w[k..] + s)
  {
    var t := w + s;
    assert t[k..] == w[k..] + s && t[0] == w[0];
    if k == 3 { assert [0xEF, 0xBB, 0xBF] <= t; }
  }

  /** Blanks in front of a token are skipped. */
  lemma {:induction false} ScanBlank(w: bytes, s: bytes)
    requires Blank(w)
    ensures Scan(w + s) == Scan(s)
    decreases |w|
  {
    if w == [] {
      assert w + s == s;
    } else {
      var k := BlankLength(w);
      ScanBlank(w[k..], s);
      ScanSkip(w, s, k);
    }
  }

  lemma ScanMark(c: byte, s: bytes)
    requires c in {44, 58, 91, 93, 123, 125}
    ensures Scan([c] + s) == Lexed(Punctuation(c), s)
  {
    assert ([c] + s)[1..] == s;
  }

  lemma ScanWord(s: bytes)
    ensures Scan([110, 117, 108, 108] + s) == Lexed(LiteralNull, s)
    ensures Scan([116, 114, 117, 101] + s) == Lexed(LiteralTrue, s)
    ensures Scan([102, 97, 108, 115, 101] + s) == Lexed(LiteralFalse, s)
  {
    assert ([110, 117, 108, 108] + s)[4..] == s;
    assert ([116, 114, 117, 101] + s)[4..] == s;
    assert ([102, 97, 108, 115, 101] + s)[5..] == s;
  }

  lemma {:induction false} BodyScanned(body: bytes, s: bytes)
    requires IsBody(body)
    ensures BodyLength(body + ([34] + s)) == |body|
    decreases |body|
  {
    var t := body + ([34] + s);
    if body == [] {
    } else {
      var k := UnitLength(body);
      BodyScanned(body[k..], s);
      assert t[k..] == body[k..] + ([34] + s);
      UnitWithin(body, [34] + s);
    }
  }

  /** What follows does not change the first unit. */
  lemma UnitWithin(s: bytes, rest: bytes)
    requires UnitLength(s) > 0
    ensures UnitLength(s + rest) == UnitLength(s)
  {
    if UnitLength(s) == 6 { assert (s + rest)[2..] == s[2..] + rest; }
  }

  lemma ScanQuotation(body: bytes, s: bytes)
    requires IsBody(body)
    ensures Scan([34] + body + [34] + s) == Lexed(ValueString(body), s)
  {
    var t, u := [34] + body + [34] + s, body + ([34] + s);
    assert t[0] == 34 && t[1..] == u;
    BodyScanned(body, s);
    assert u[..|body|] == body && u[|body| + 1..] == s;
  }

  lemma ScanFigure(f: Figure, s: bytes)
    requires IsFigure(f) && Fits(s)
    ensures Scan(FigureText(f) + s) == Lexed(ValueNumber(FigureText(f), s), s)
  {
    var text := FigureText(f);
    FigureScanned(f, s);
    FigureStart(f);
    assert (text + s)[0] == text[0];
    ScansNumber(text + s);
    assert (text + s)[..|text|] == text && (text + s)[|text|..] == s;
  }

  lemma ScansNumber(t: bytes)
    requires t != [] && (t[0] == 45 || IsDigit(t[0]))
    ensures Scan(t) == ScanNumber(t)
  {
    var c := t[0];
    assert c != 0 && !IsWhite(c) && c != 0xEF && c != 110 && c != 116 && c != 102 && c != QUOTE;
    var r := ScanNumber(t);
    assert Scan(t) == r;
  }

  lemma FigureStart(f: Figure)
    requires IsFigure(f)
    ensures FigureText(f) != [] && (FigureText(f)[0] == 45 || IsDigit(FigureText(f)[0]))
  {
    assert f.negative ==> FigureText(f)[0] == 45;
    assert !f.negative ==> FigureText(f)[0] == f.whole[0];
  }

  /** Blanks and the marks behind a value do not continue a number. */
  lemma BlankFits(w: bytes, c: byte, s: bytes)
    requires Blank(w) && c in {44, 93, 125}
    ensures Fits(w + ([c] + s))
  {
    var t := w + ([c] + s);
    assert t[0] == if w == [] then c else w[0];
  }

  // ---- One step of the parser at a time.

  /** What the items of an array and the members of an object can begin with. */
  lemma Starts(next: Lexed)
    ensures ParseItems([], next).Done? ==> !next.token.EndArray? && !next.token.ValueSeparator?
    ensures ParseMembers([], next).Done? ==> !next.token.EndObject? && !next.token.ValueSeparator?
  {
    assert next.token.EndArray? || next.token.ValueSeparator? ==> ParseValue(next).Failed?;
  }

  lemma ItemsFollow(at: Lexed, next: Lexed)
    requires at.token.BeginArray? && next == Scan(at.rest) && !next.token.EndArray? && !next.token.ValueSeparator?
    ensures ParseValue(at) == ParseItems([], next)
  {
    var r := ParseItems([], next);
    assert ParseValue(at) == r;
  }

  lemma BeginItems(at: Lexed)
    requires at.token.BeginArray? && ParseItems([], Scan(at.rest)).Done?
    ensures ParseValue(at) == ParseItems([], Scan(at.rest))
  {
    Starts(Scan(at.rest));
    ItemsFollow(at, Scan(at.rest));
  }

  lemma NextItem(done: seq<Json>, at: Lexed, v: Json, mid: Lexed)
    requires ParseValue(at) == Done(v, mid)
    ensures mid.token.ValueSeparator? ==> ParseItems(done, at) == ParseItems(done + [v], Scan(mid.rest))
    ensures mid.token.EndArray? ==> ParseItems(done, at) == Done(Array(done + [v]), Scan(mid.rest))
  {
  }

  lemma MembersFollow(at: Lexed, next: Lexed)
    requires at.token.BeginObject? && next == Scan(at.rest) && !next.token.EndObject? && !next.token.ValueSeparator?
    ensures ParseValue(at) == ParseMembers([], next)
  {
    var r := ParseMembers([], next);
    assert ParseValue(at) == r;
  }

  lemma BeginMembers(at: Lexed)
    requires at.token.BeginObject? && ParseMembers([], Scan(at.rest)).Done?
    ensures ParseValue(at) == ParseMembers([], Scan(at.rest))
  {
    Starts(Scan(at.rest));
    MembersFollow(at, Scan(at.rest));
  }

  lemma NextMember(done: seq<Member>, at: Lexed, body: bytes, colon: Lexed, v: Json, mid: Lexed)
    requires at.token == ValueString(body) && IsKey(body) && Scan(at.rest) == colon && colon.token.NameSeparator?
    requires ParseValue(Scan(colon.rest)) == Done(v, mid)
    ensures
      var more := Put(done, Unescaped(body).text, v);
      && (mid.token.ValueSeparator? ==> ParseMembers(done, at) == ParseMembers(more, Scan(mid.rest)))
      && (mid.token.EndObject? ==> ParseMembers(done, at) == Done(Object(more), Scan(mid.rest)))
  {
  }

  lemma NothingInside(at: Lexed)
    ensures at.token.BeginArray? && Scan(at.rest).token.EndArray? ==>
      ParseValue(at) == Done(Array([]), Scan(Scan(at.rest).rest))
    ensures at.token.BeginObject? && Scan(at.rest).token.EndObject? ==>
      ParseValue(at) == Done(Object([]), Scan(Scan(at.rest).rest))
  {
  }

  // ---- Every text of the grammar is read, and as what it stands for.

  lemma ItemsSplit(items: seq<Item>, tail: bytes)
    requires items != []
    ensures ItemsText(items) + tail == items[0].before + (Written(items[0].value) + (items[0].after +
      (if |items| == 1 then tail else [44] + (ItemsText(items[1..]) + tail))))
  {
    var a, b, c := items[0].before, Written(items[0].value), items[0].after;
    FourParts(a, b, c, More(|items|, ItemsText(items[1..])), tail);
    MoreSplit(|items|, ItemsText(items[1..]), tail);
  }

  lemma MoreSplit(n: nat, rest: bytes, tail: bytes)
    ensures More(n, rest) + tail == if n == 1 then tail else [44] + (rest + tail)
  {
    if n == 1 {
      assert [] + tail == tail;
    } else {
      assert [44] + rest + tail == [44] + (rest + tail);
    }
  }

  lemma FourParts(a: bytes, b: bytes, c: bytes, d: bytes, e: bytes)
    ensures a + (b + c) + d + e == a + (b + (c + (d + e)))
  {
  }

  lemma SensesRest(items: seq<Item>)
    requires WellItems(items) && items != []
    ensures WellItems(items[1..]) && Senses(items)[1..] == Senses(items[1..])
  {
  }

  lemma SensesFirst(done: seq<Json>, items: seq<Item>)
    requires WellItems(items) && items != []
    ensures WellItems(items[1..]) && done + Senses(items) == done + [Sense(items[0].value)] + Senses(items[1..])
    ensures |items| == 1 ==> done + Senses(items) == done + [Sense(items[0].value)]
  {
    SensesRest(items);
    TakeFirst(done, Senses(items));
  }

  lemma TakeFirst<T>(done: seq<T>, s: seq<T>)
    requires s != []
    ensures done + s == done + [s[0]] + s[1..] && (|s| == 1 ==> done + s == done + [s[0]])
  {
  }

  /** The first item, and the mark behind it. */
  lemma {:induction false} FirstRead(items: seq<Item>, tail: bytes, mark: byte, more: bytes)
    requires WellItems(items) && items != [] && (mark == 44 || mark == 93)
    requires [mark] + more == if |items| == 1 then tail else [44] + (ItemsText(items[1..]) + tail)
    ensures ParseValue(Scan(ItemsText(items) + tail)) == Done(Sense(items[0].value), Lexed(Punctuation(mark), more))
    decreases items, |items|, 0
  {
    var first, behind := items[0], items[0].after + ([mark] + more);
    ItemsSplit(items, tail);
    ScanBlank(first.before, Written(first.value) + behind);
    BlankFits(first.after, mark, more);
    Reads(first.value, behind);
    ScanBlank(first.after, [mark] + more);
    ScanMark(mark, more);
  }

  lemma {:induction false} ItemsRead(done: seq<Json>, items: seq<Item>, rest: bytes)
    requires WellItems(items) && items != []
    ensures ParseItems(done, Scan(ItemsText(items) + ([93] + rest))) == Done(Array(done + Senses(items)), Scan(rest))
    decreases items, |items|, 1
  {
    var tail, v := [93] + rest, Sense(items[0].value);
    SensesFirst(done, items);
    if |items| == 1 {
      FirstRead(items, tail, 93, rest);
      NextItem(done, Scan(ItemsText(items) + tail), v, Lexed(EndArray, rest));
    } else {
      FirstRead(items, tail, 44, ItemsText(items[1..]) + tail);
      NextItem(done, Scan(ItemsText(items) + tail), v, Lexed(ValueSeparator, ItemsText(items[1..]) + tail));
      ItemsRead(done + [v], items[1..], rest);
    }
  }

  lemma ScalarReads(t: Tree, rest: bytes)
    requires Well(t) && !t.List? && !t.Dict? && Fits(rest)
    ensures ParseValue(Scan(Written(t) + rest)) == Done(Sense(t), Scan(rest))
  {
    match t {
      case Nothing => ScanWord(rest);
      case Truth(_) => ScanWord(rest);
      case Quotation(body) => ScanQuotation(body, rest);
      case Number(figure) =>
        ScanFigure(figure, rest);
        FigureConverted(figure, rest);
    }
  }

  /** An opening bracket and a blank. */
  lemma Opened(c: byte, gap: bytes, inner: bytes, close: byte, rest: bytes)
    requires (c == 91 || c == 123) && Blank(gap)
    ensures
      var at := Scan([c] + (gap + (inner + [close])) + rest);
      at.token == Punctuation(c) && Scan(at.rest) == Scan(inner + ([close] + rest))
  {
    var body := inner + ([close] + rest);
    assert [c] + (gap + (inner + [close])) + rest == [c] + (gap + body);
    ScanMark(c, gap + body);
    ScanBlank(gap, body);
  }

  lemma {:induction false} Reads(t: Tree, rest: bytes)
    requires Well(t) && Fits(rest)
    ensures ParseValue(Scan(Written(t) + rest)) == Done(Sense(t), Scan(rest))
    decreases t, 0
  {
    match t {
      case List(gap, items) =>
        Opened(91, gap, ItemsText(items), 93, rest);
        if items == [] {
          assert [] + ([93] + rest) == [93] + rest;
          ScanMark(93, rest);
          NothingInside(Scan(Written(t) + rest));
        } else {
          ItemsRead([], items, rest);
          BeginItems(Scan(Written(t) + rest));
          assert [] + Senses(items) == Senses(items);
        }
      case Dict(gap, pairs) =>
        Opened(123, gap, PairsText(pairs), 125, rest);
        if pairs == [] {
          assert [] + ([125] + rest) == [125] + rest;
          ScanMark(125, rest);
          NothingInside(Scan(Written(t) + rest));
        } else {
          PairsRead([], pairs, rest);
          BeginMembers(Scan(Written(t) + rest));
        }
      case _ => ScalarReads(t, rest);
    }
  }

  lemma PairParts(p: Pair, value: bytes, d: bytes, e: bytes)
    ensures PairText(p, value) + d + e ==
      p.before + ([34] + p.key + [34] + (p.colon + ([58] + (p.space + (value + (p.after + (d + e)))))))
  {
  }

  lemma PairsSplit(pairs: seq<Pair>, tail: bytes)
    requires pairs != []
    ensures
      var p := pairs[0];
      var behind := p.after + (if |pairs| == 1 then tail else [44] + (PairsText(pairs[1..]) + tail));
      PairsText(pairs) + tail ==
        p.before + ([34] + p.key + [34] + (p.colon + ([58] + (p.space + (Written(p.value) + behind)))))
  {
    PairParts(pairs[0], Written(pairs[0].value), More(|pairs|, PairsText(pairs[1..])), tail);
    MoreSplit(|pairs|, PairsText(pairs[1..]), tail);
  }

  /** The tokens in front of a value. */
  lemma KeyRead(p: Pair, body: bytes)
    requires Gaps(p) && IsKey(p.key)
    ensures
      var at := Scan(p.before + ([34] + p.key + [34] + (p.colon + ([58] + (p.space + body)))));
      && at.token == ValueString(p.key)
      && Scan(at.rest).token.NameSeparator? && Scan(Scan(at.rest).rest) == Scan(body)
  {
    var c := [58] + (p.space + body);
    ScanBlank(p.before, [34] + p.key + [34] + (p.colon + c));
    ScanQuotation(p.key, p.colon + c);
    ScanBlank(p.colon, c);
    ScanMark(58, p.space + body);
    ScanBlank(p.space, body);
  }

  lemma GivenFirst(done: seq<Member>, pairs: seq<Pair>)
    requires WellPairs(pairs) && pairs != []
    ensures WellPairs(pairs[1..])
    ensures PutAll(done, Given(pairs)) ==
      PutAll(Put(done, Unescaped(pairs[0].key).text, Sense(pairs[0].value)), Given(pairs[1..]))
  {
    assert Given(pairs)[1..] == Given(pairs[1..]);
  }

  lemma {:induction false} PairsRead(done: seq<Member>, pairs: seq<Pair>, rest: bytes)
    requires WellPairs(pairs) && pairs != []
    ensures ParseMembers(done, Scan(PairsText(pairs) + ([125] + rest))) ==
      Done(Object(PutAll(done, Given(pairs))), Scan(rest))
    decreases pairs, |pairs|
  {
    var p, tail := pairs[0], [125] + rest;
    var mark: byte := if |pairs| == 1 then 125 else 44;
    var more := if |pairs| == 1 then rest else PairsText(pairs[1..]) + tail;
    var behind := p.after + ([mark] + more);
    PairsSplit(pairs, tail);
    KeyRead(p, Written(p.value) + behind);
    BlankFits(p.after, mark, more);
    Reads(p.value, behind);
    ScanBlank(p.after, [mark] + more);
    ScanMark(mark, more);
    var at := Scan(PairsText(pairs) + tail);
    NextMember(done, at, p.key, Scan(at.rest), Sense(p.value), Scan(behind));
    GivenFirst(done, pairs);
    if |pairs| == 1 {
    } else {
      PairsRead(Put(done, Unescaped(p.key).text, Sense(p.value)), pairs[1..], rest);
    }
  }
}
