/** How many nodes a red-black tree of a given height has at least, and trees that have no more. */
module Heights {
  import opened Shape

  function Pow2(n: nat): nat { if n == 0 then 1 else 2 * Pow2(n - 1) }

  lemma {:induction false} Pow2Monotone(a: nat, b: nat)
    requires a <= b
    ensures 0 < Pow2(a) <= Pow2(b)
    decreases b
  {
    if b == 0 {
    } else if a == b {
      Pow2Monotone(a - 1, b - 1);
    } else {
      Pow2Monotone(a, b - 1);
    }
  }

  /** The least number of nodes of a red-black tree that is `h` nodes high. */
  function MinNodes(h: nat): (n: nat) {
    Pow2Monotone(0, h / 2);
    if h % 2 == 0 then 2 * Pow2(h / 2) - 2 else 3 * Pow2(h / 2) - 2
  }

  lemma {:induction false} MinNodesMonotone(a: nat, b: nat)
    requires a <= b
    ensures MinNodes(a) <= MinNodes(b)
    decreases b
  {
    if a == b {
    } else {
      MinNodesMonotone(a, b - 1);
      Pow2Monotone(0, (b - 1) / 2);
    }
  }

  lemma {:induction false} BlackHeightBound(t: Tree)
    requires Balanced(t)
    ensures Pow2(BlackHeight(t)) <= |Inorder(t)| + 1 && BlackHeight(t) <= Height(t)
  {
    if t.Nil? {
    } else {
      BlackHeightBound(t.left);
      BlackHeightBound(t.right);
    }
  }

  lemma {:induction false} HeightVersusBlackHeight(t: Tree)
    requires Balanced(t) && NoRedRed(t)
    ensures Height(t) <= 2 * BlackHeight(t) + if IsRed(t) then 1 else 0
  {
    if t.Nil? {
    } else {
      HeightVersusBlackHeight(t.left);
      HeightVersusBlackHeight(t.right);
    }
  }

  /** Black nodes make a tree wide everywhere, red ones only beside the longest path. */
  lemma {:induction false} Spread(t: Tree)
    requires Balanced(t) && NoRedRed(t)
    ensures BlackHeight(t) <= Height(t)
    ensures |Inorder(t)| + 2 >= Pow2(BlackHeight(t)) + Pow2(Height(t) - BlackHeight(t))
  {
    BlackHeightBound(t);
    if t.Nil? {
    } else {
      var high, low := t.left, t.right;
      if Height(t.left) < Height(t.right) { high, low := t.right, t.left; }
      Spread(high);
      BlackHeightBound(low);
      if t.red {
        HeightVersusBlackHeight(high);
        Pow2Monotone(Height(high) - BlackHeight(high), BlackHeight(high));
      }
    }
  }

  lemma {:induction false} SpreadLeast(h: nat, b: nat)
    requires b <= h <= 2 * b
    ensures Pow2(b) + Pow2(h - b) >= MinNodes(h) + 2
    decreases b
  {
    if 2 * b <= h + 1 {
      assert h / 2 == h - b;
    } else {
      SpreadLeast(h, b - 1);
      Pow2Monotone(h - b, b - 1);
    }
  }

  lemma HeightCosts(t: Tree)
    requires RedBlack(t)
    ensures |Inorder(t)| >= MinNodes(Height(t))
  {
    Spread(t);
    HeightVersusBlackHeight(t);
    SpreadLeast(Height(t), BlackHeight(t));
  }

  /** A red-black tree of fewer nodes than the least for `d + 1` is at most `d` nodes high. */
  lemma HeightBound(t: Tree, d: nat)
    requires RedBlack(t) && |Inorder(t)| < MinNodes(d + 1)
    ensures Height(t) <= d
  {
    HeightCosts(t);
    if Height(t) > d { MinNodesMonotone(d + 1, Height(t)); }
  }

  /** Few enough nodes for every path of a red-black tree to be at most `depth` long. */
  predicate Fits(n: nat, depth: nat) { n < MinNodes(depth + 1) }

  lemma Fits48(n: nat)
    ensures Fits(n, 48) <==> n < 50331646
  {
    assert Pow2(8) == 0x100;
    assert Pow2(16) == 0x1_0000;
    assert Pow2(24) == 0x100_0000;
  }

  /** With 32-bit links the path stack has 48 entries: no path is longer with fewer than 3 * 2^24 - 2 nodes. */
  lemma PathsOf48(t: Tree)
    requires RedBlack(t) && |Inorder(t)| < 50331646
    ensures Height(t) <= 48
  {
    Fits48(|Inorder(t)|);
    HeightBound(t, 48);
  }

  // ---- Trees that are as high as their number of nodes allows.

  /** All nodes black, every path `m` long. */
  function Full(m: nat): Tree {
    if m == 0 then Nil else Bin(Full(m - 1), 0, false, Full(m - 1))
  }

  /** Black and red in turn along one side, full black trees beside it. */
  function Lean(m: nat, left: bool): Tree {
    if m == 0 then Nil else
      var red := Join(left, Lean(m - 1, left), 0, true, Full(m - 1));
      Join(left, red, 0, false, Full(m - 1))
  }

  /** The least tree of height `h`: the longest path begins with a step to the side `first` and goes on to `rest`. */
  function Tall(h: nat, first: bool, rest: bool): Tree
    requires h > 0
  {
    if h % 2 == 1 then Join(first, Lean(h / 2, rest), 0, false, Full(h / 2))
    else Join(first, Join(rest, Lean(h / 2 - 1, rest), 0, true, Full(h / 2 - 1)), 0, false, Full(h / 2 - 1))
  }

  lemma {:induction false} FullOk(m: nat)
    ensures RedBlack(Full(m)) && BlackHeight(Full(m)) == m && |Inorder(Full(m))| + 1 == Pow2(m) && Height(Full(m)) == m
  {
    if m == 0 {
    } else {
      FullOk(m - 1);
    }
  }

  lemma {:induction false} LeanOk(m: nat, left: bool)
    ensures RedBlack(Lean(m, left)) && BlackHeight(Lean(m, left)) == m && Height(Lean(m, left)) == 2 * m
    ensures |Inorder(Lean(m, left))| + 2 == 2 * Pow2(m)
  {
    if m == 0 {
    } else {
      LeanOk(m - 1, left);
      FullOk(m - 1);
    }
  }

  lemma TallOk(h: nat, first: bool, rest: bool)
    requires h > 0
    ensures RedBlack(Tall(h, first, rest)) && Height(Tall(h, first, rest)) == h
    ensures |Inorder(Tall(h, first, rest))| == MinNodes(h)
  {
    var m := if h % 2 == 1 then h / 2 else h / 2 - 1;
    LeanOk(m, rest);
    FullOk(m);
  }

  /** With that many nodes a path can be longer. */
  lemma PathOf49(h: nat, first: bool, rest: bool)
    requires h == 49
    ensures RedBlack(Tall(h, first, rest)) && |Inorder(Tall(h, first, rest))| == 50331646
    ensures Height(Tall(h, first, rest)) == 49
  {
    TallOk(h, first, rest);
    Fits48(50331645);
    Fits48(50331646);
  }

  /** The same tree with its slots numbered in order from `n` on. */
  function Numbered(t: Tree, n: nat): Tree {
    match t
    case Nil => Nil
    case Bin(l, _, red, r) =>
      var m := n + |Inorder(l)|;
      Bin(Numbered(l, n), m, red, Numbered(r, m + 1))
  }

  function Range(n: nat, k: nat): seq<nat> { seq(k, i requires 0 <= i < k => n + i) }

  lemma {:induction false} NumberedOk(t: Tree, n: nat)
    ensures Inorder(Numbered(t, n)) == Range(n, |Inorder(t)|)
    ensures BlackHeight(Numbered(t, n)) == BlackHeight(t) && Height(Numbered(t, n)) == Height(t)
    ensures Balanced(Numbered(t, n)) == Balanced(t) && NoRedRed(Numbered(t, n)) == NoRedRed(t) &&
            IsRed(Numbered(t, n)) == IsRed(t)
  {
    match t {
      case Nil =>
      case Bin(l, _, _, r) =>
        NumberedOk(l, n);
        NumberedOk(r, n + |Inorder(l)| + 1);
    }
  }

  lemma NumberedDistinct(t: Tree, n: nat)
    ensures Distinct(Numbered(t, n))
    ensures forall x :: x in Slots(Numbered(t, n)) <==> n <= x < n + |Inorder(t)|
  {
    NumberedOk(t, n);
    InorderDistinct(Numbered(t, n));
    SlotsAreInorder(Numbered(t, n));
    var s, k := Range(n, |Inorder(t)|), |Inorder(t)|;
    forall x | n <= x < n + k ensures x in s {
      assert s[x - n] == x;
    }
  }
}
