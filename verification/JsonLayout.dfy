/** What dumping writes, blank by blank, and the round trip through the parser. */
module JsonLayout {
  import opened Bson
  import opened JsonStrings
  import opened Json
  import opened JsonNumbers
  import opened JsonObjects
  import opened JsonGrammar
  import opened JsonAccepts

  /** The number of spaces that a line at some depth of nesting begins with, counted in 32 bits. */
  function Margin(layout: Layout, depth: nat): nat {
    if layout.pretty then depth * layout.step % 0x1_0000_0000 else 0
  }

  /** In a pretty text a new line with its margin, and else nothing. */
  function Break(layout: Layout, depth: nat): bytes {
    if layout.pretty then [10] + Spaces(Margin(layout, depth)) else []
  }

  function Integral(i: int): Figure { Figure(i < 0, Digits(if i < 0 then -i else i), [], []) }

  /** The text of a value: items and members each on a line one deeper, the closing bracket on a line of its own, and
      a space behind each colon; without blanks if the text is not pretty. */
  function Laid(j: Json, layout: Layout, depth: nat): Tree
    requires FloatFree(j)
    decreases j
  {
    match j
    case Null => Nothing
    case Boolean(on) => Truth(on)
    case Integer(i) => Number(Integral(i))
    case Unsigned(n) => Number(Integral(n))
    case String(text) => Quotation(Escaped(text))
    case Array(items) => List([], LaidItems(items, layout, depth))
    case Object(members) => Dict([], LaidMembers(members, layout, depth))
  }

  function LaidItems(items: seq<Json>, layout: Layout, depth: nat): seq<Item>
    requires forall k :: 0 <= k < |items| ==> FloatFree(items[k])
    decreases items
  {
    seq(|items|, k requires 0 <= k < |items| =>
      Item(Break(layout, depth + 1), Laid(items[k], layout, depth + 1), Behind(layout, depth, k == |items| - 1)))
  }

  function LaidMembers(members: seq<Member>, layout: Layout, depth: nat): seq<Pair>
    requires forall k :: 0 <= k < |members| ==> FloatFree(members[k].value)
    decreases members
  {
    seq(|members|, k requires 0 <= k < |members| =>
      Pair(Break(layout, depth + 1), Escaped(members[k].key), [], if layout.pretty then [32] else [],
        Laid(members[k].value, layout, depth + 1), Behind(layout, depth, k == |members| - 1)))
  }

  function Behind(layout: Layout, depth: nat, last: bool): bytes { if last then Break(layout, depth) else [] }

  // ---- Dumping writes this text.

  lemma MarginDeeper(layout: Layout, depth: nat)
    ensures Deeper(layout, Margin(layout, depth)) == Margin(layout, depth + 1)
  {
    if layout.pretty {
      assert (depth + 1) * layout.step == depth * layout.step + layout.step;
      ModuloAdds(depth * layout.step, layout.step);
    }
  }

  lemma ModuloAdds(a: nat, b: nat)
    ensures (a % 0x1_0000_0000 + b) % 0x1_0000_0000 == (a + b) % 0x1_0000_0000
  {
  }

  lemma BreakIs(layout: Layout, depth: nat)
    ensures Break(layout, depth) == Line(layout) + Spaces(Margin(layout, depth))
  {
  }

  lemma IntegralText(i: int)
    ensures FigureText(Integral(i)) == Decimal(i) && IsFigure(Integral(i))
  {
    DigitsMean(if i < 0 then -i else i);
  }

  lemma IntegralValue(i: int)
    requires -0x8000_0000_0000_0000 <= i < 0x1_0000_0000_0000_0000
    ensures IsFigure(Integral(i)) && FigureValue(Integral(i)) == if i < 0 then Integer(i) else Unsigned(i)
  {
    DigitsMean(if i < 0 then -i else i);
  }

  lemma {:induction false} SpacesBlank(n: nat)
    ensures Blank(Spaces(n))
  {
    if n == 0 {
    } else {
      SpacesBlank(n - 1);
      assert Spaces(n)[1..] == Spaces(n - 1);
    }
  }

  lemma BreakBlank(layout: Layout, depth: nat)
    ensures Blank(Break(layout, depth))
  {
    SpacesBlank(Margin(layout, depth));
    if layout.pretty { assert Break(layout, depth)[1..] == Spaces(Margin(layout, depth)); }
  }

  /** Dumping writes the text of the value, with these blanks and no others. */
  lemma {:induction false} DumpLaid(j: Json, layout: Layout, depth: nat)
    requires FloatFree(j)
    ensures Dump(j, layout, Margin(layout, depth)) == Written(Laid(j, layout, depth))
    decreases j, 0
  {
    match j {
      case Integer(i) => IntegralText(i);
      case Unsigned(n) => IntegralText(n);
      case Array(items) =>
        if items == [] {
          NoneLaid(91, 93);
        } else {
          MarginDeeper(layout, depth);
          ItemsLaid(items, layout, depth);
          Bracketed(91, 93, layout, depth, DumpItems(items, layout, Margin(layout, depth + 1)));
        }
      case Object(members) =>
        if members == [] {
          NoneLaid(123, 125);
        } else {
          MarginDeeper(layout, depth);
          MembersLaid(members, layout, depth);
          Bracketed(123, 125, layout, depth, DumpMembers(members, layout, Margin(layout, depth + 1)));
        }
      case _ =>
    }
  }

  /** A whole value is dumped without a margin. */
  lemma DumpText(j: Json, layout: Layout)
    requires FloatFree(j)
    ensures Dump(j, layout, 0) == Written(Laid(j, layout, 0))
  {
    assert Margin(layout, 0) == 0;
    DumpLaid(j, layout, 0);
  }

  /** No blanks anywhere. */
  predicate NoGaps(t: Tree) {
    match t
    case List(gap, items) =>
      gap == [] && forall k :: 0 <= k < |items| ==>
        items[k].before == items[k].after == [] && NoGaps(items[k].value)
    case Dict(gap, pairs) =>
      gap == [] && forall k :: 0 <= k < |pairs| ==>
        pairs[k].before == pairs[k].colon == pairs[k].space == pairs[k].after == [] && NoGaps(pairs[k].value)
    case _ => true
  }

  /** A text that is not pretty has no white space outside its strings. */
  lemma {:induction false} Compact(j: Json, layout: Layout, depth: nat)
    requires FloatFree(j) && !layout.pretty
    ensures NoGaps(Laid(j, layout, depth))
  {
    match j {
      case Array(items) =>
        forall k | 0 <= k < |items| ensures NoGaps(Laid(items[k], layout, depth + 1)) {
          Compact(items[k], layout, depth + 1);
        }
      case Object(members) =>
        forall k | 0 <= k < |members| ensures NoGaps(Laid(members[k].value, layout, depth + 1)) {
          Compact(members[k].value, layout, depth + 1);
        }
      case _ =>
    }
  }

  lemma NoneLaid(open: byte, close: byte)
    ensures [open, close] == [open] + ([] + ([] + [close]))
  {
  }

  lemma Bracketed(open: byte, close: byte, layout: Layout, depth: nat, inner: bytes)
    ensures [open] + Line(layout) + inner + Line(layout) + Spaces(Margin(layout, depth)) + [close] ==
      [open] + ([] + ((Line(layout) + inner + Break(layout, depth)) + [close]))
  {
    BreakIs(layout, depth);
    Grouped([open], Line(layout), inner, Line(layout), Spaces(Margin(layout, depth)), [close]);
  }

  lemma Grouped(a: bytes, b: bytes, c: bytes, d: bytes, e: bytes, f: bytes)
    ensures a + b + c + d + e + f == a + ([] + ((b + c + (d + e)) + f))
  {
  }

  lemma LaidRest(items: seq<Json>, layout: Layout, depth: nat)
    requires |items| > 1 && forall k :: 0 <= k < |items| ==> FloatFree(items[k])
    ensures LaidItems(items, layout, depth)[1..] == LaidItems(items[1..], layout, depth)
  {
  }

  lemma Chained(a: bytes, b: bytes, c: bytes, d: bytes, e: bytes, f: bytes)
    ensures a + (b + c + ([44] + d + e)) + f == (a + b) + (c + []) + ([44] + (d + e + f))
    ensures a + (b + c) + f == (a + b) + (c + f) + []
  {
  }

  /** The items of an array, from the first line break to the one before the closing bracket. */
  lemma {:induction false} ItemsLaid(items: seq<Json>, layout: Layout, depth: nat)
    requires items != [] && forall k :: 0 <= k < |items| ==> FloatFree(items[k])
    ensures Line(layout) + DumpItems(items, layout, Margin(layout, depth + 1)) + Break(layout, depth) ==
      ItemsText(LaidItems(items, layout, depth))
    decreases items, |items|
  {
    var margin, line := Margin(layout, depth + 1), Line(layout);
    var value, laid := Dump(items[0], layout, margin), LaidItems(items, layout, depth);
    DumpLaid(items[0], layout, depth + 1);
    BreakIs(layout, depth + 1);
    if |items| == 1 {
      Chained(line, Spaces(margin), value, [], [], Break(layout, depth));
    } else {
      ItemsLaid(items[1..], layout, depth);
      LaidRest(items, layout, depth);
      Chained(line, Spaces(margin), value, line, DumpItems(items[1..], layout, margin), Break(layout, depth));
    }
  }

  lemma {:induction false} MembersLaid(members: seq<Member>, layout: Layout, depth: nat)
    requires members != [] && forall k :: 0 <= k < |members| ==> FloatFree(members[k].value)
    ensures Line(layout) + DumpMembers(members, layout, Margin(layout, depth + 1)) + Break(layout, depth) ==
      PairsText(LaidMembers(members, layout, depth))
    decreases members, |members|
  {
    var margin, line := Margin(layout, depth + 1), Line(layout);
    var value, laid := Dump(members[0].value, layout, margin), LaidMembers(members, layout, depth);
    DumpLaid(members[0].value, layout, depth + 1);
    BreakIs(layout, depth + 1);
    var key, space := Quoted(members[0].key), if layout.pretty then [SPACE] else [];
    if |members| == 1 {
      ChainedPair(line, Spaces(margin), key, space, value, [], [], Break(layout, depth));
    } else {
      MembersLaid(members[1..], layout, depth);
      LaidMembersRest(members, layout, depth);
      ChainedPair(line, Spaces(margin), key, space, value, line, DumpMembers(members[1..], layout, margin),
        Break(layout, depth));
    }
  }

  lemma LaidMembersRest(members: seq<Member>, layout: Layout, depth: nat)
    requires |members| > 1 && forall k :: 0 <= k < |members| ==> FloatFree(members[k].value)
    ensures LaidMembers(members, layout, depth)[1..] == LaidMembers(members[1..], layout, depth)
  {
  }

  lemma ChainedPair(a: bytes, b: bytes, k: bytes, p: bytes, c: bytes, d: bytes, e: bytes, f: bytes)
    ensures a + (b + k + ([58] + p + c) + ([44] + d + e)) + f ==
      (a + b) + (k + ([] + ([58] + (p + (c + []))))) + ([44] + (d + e + f))
    ensures a + (b + k + ([58] + p + c)) + f == (a + b) + (k + ([] + ([58] + (p + (c + f))))) + []
  {
  }

  // ---- The round trip.

  /** The text of `j` stands for what is read back. */
  ghost predicate Meant(j: Json, layout: Layout, depth: nat) {
    FloatFree(j) && Well(Laid(j, layout, depth)) && Sense(Laid(j, layout, depth)) == Normal(j)
  }

  lemma {:induction false} LaidMeans(j: Json, layout: Layout, depth: nat)
    requires FloatFree(j)
    ensures Meant(j, layout, depth)
  {
    match j {
      case Integer(i) => IntegralValue(i);
      case Unsigned(n) => IntegralValue(n);
      case String(text) => StringRoundTrip(text);
      case Array(items) =>
        forall k | 0 <= k < |items| ensures Meant(items[k], layout, depth + 1) {
          LaidMeans(items[k], layout, depth + 1);
        }
        ItemsMean(items, layout, depth);
      case Object(members) =>
        forall k | 0 <= k < |members| ensures Meant(members[k].value, layout, depth + 1) {
          LaidMeans(members[k].value, layout, depth + 1);
        }
        MembersWell(members, layout, depth);
        MembersMean(members, layout, depth);
      case _ =>
    }
  }

  lemma ItemsMean(items: seq<Json>, layout: Layout, depth: nat)
    requires FloatFree(Array(items)) && forall k :: 0 <= k < |items| ==> Meant(items[k], layout, depth + 1)
    ensures WellItems(LaidItems(items, layout, depth))
    ensures Array(Senses(LaidItems(items, layout, depth))) == Normal(Array(items))
  {
    BreakBlank(layout, depth);
    BreakBlank(layout, depth + 1);
    var laid := LaidItems(items, layout, depth);
    forall k | 0 <= k < |items| ensures Well(laid[k].value) && Sense(laid[k].value) == Normal(items[k]) {
      assert Meant(items[k], layout, depth + 1);
    }
    assert WellItems(laid);
    assert Senses(laid) == Normal(Array(items)).items;
  }

  ghost predicate AllMeant(members: seq<Member>, layout: Layout, depth: nat) {
    FloatFree(Object(members)) && forall k :: 0 <= k < |members| ==> Meant(members[k].value, layout, depth)
  }

  lemma MemberMeans(m: Member, layout: Layout, depth: nat)
    requires Meant(m.value, layout, depth)
    ensures IsKey(Escaped(m.key)) && Well(Laid(m.value, layout, depth))
    ensures Member(Unescaped(Escaped(m.key)).text, Sense(Laid(m.value, layout, depth))) ==
      Member(m.key, Normal(m.value))
  {
    StringRoundTrip(m.key);
  }

  lemma MembersWell(members: seq<Member>, layout: Layout, depth: nat)
    requires AllMeant(members, layout, depth + 1)
    ensures WellPairs(LaidMembers(members, layout, depth))
  {
    var laid := LaidMembers(members, layout, depth);
    BreakBlank(layout, depth);
    BreakBlank(layout, depth + 1);
    assert Blank([32]) by { SpacesBlank(1); assert Spaces(1) == [32]; }
    forall k | 0 <= k < |laid| ensures Gaps(laid[k]) && IsKey(laid[k].key) && Well(laid[k].value) {
      MemberMeans(members[k], layout, depth + 1);
    }
  }

  lemma MembersMean(members: seq<Member>, layout: Layout, depth: nat)
    requires AllMeant(members, layout, depth + 1) && WellPairs(LaidMembers(members, layout, depth))
    ensures Object(PutAll([], Given(LaidMembers(members, layout, depth)))) == Normal(Object(members))
  {
    var given, all := Given(LaidMembers(members, layout, depth)), Normal(Object(members)).members;
    forall k | 0 <= k < |members| ensures given[k] == all[k] {
      MemberMeans(members[k], layout, depth + 1);
    }
    assert given == all;
    KeysInOrder(members, all);
    PutAllInOrder([], all);
  }

  lemma KeysInOrder(members: seq<Member>, all: seq<Member>)
    requires Ascending(members) && |all| == |members| && forall k :: 0 <= k < |all| ==> all[k].key == members[k].key
    ensures Ascending([] + all) && [] + all == all
  {
    assert [] + all == all;
  }

  /** Every value without floating-point numbers, dumped with any indentation or none, parses to an equal value. */
  lemma JsonRoundTrip(j: Json, layout: Layout)
    requires FloatFree(j)
    ensures Parse(Dump(j, layout, 0)) == Document(Normal(j)) && Equal(Normal(j), j)
  {
    DumpText(j, layout);
    LaidMeans(j, layout, 0);
    WrittenParses(Laid(j, layout, 0));
    NormalEqual(j);
  }
}
