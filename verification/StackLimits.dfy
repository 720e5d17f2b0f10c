/** Containers at the limits of the path stack: the smallest in which an insertion loses a slot, and the smallest
    in which a removal writes past the end of the stack. */
module StackLimits {
  import opened Shape
  import opened Heights
  import opened Threads
  import opened Roots
  import opened Splicing
  import opened Removal
  import opened Search
  import opened Ordering
  import opened SlotPool
  import opened SortedContainers

  // ---- A container for any shape of tree.

  /** Writes the cells of a tree. */
  function Lay(nodes: seq<Cell>, t: Tree, lo: int, hi: int): (nodes': seq<Cell>)
    requires forall x :: x in Slots(t) ==> x < |nodes|
    ensures |nodes'| == |nodes|
    decreases t
  {
    match t
    case Nil => nodes
    case Bin(l, i, red, r) =>
      assert Slots(t) == Slots(l) + {i} + Slots(r);
      var beside := Lay(Lay(nodes, l, lo, i), r, i, hi);
      beside[i := Cell(LinkTo(SlotOf(l), lo), LinkTo(SlotOf(r), hi), red, false)]
  }

  lemma {:induction false} LayRep(nodes: seq<Cell>, t: Tree, lo: int, hi: int)
    requires Distinct(t) && forall x :: x in Slots(t) ==> x < |nodes|
    ensures Rep(Lay(nodes, t, lo, hi), t, lo, hi) && SameOutside(nodes, Lay(nodes, t, lo, hi), Slots(t))
    decreases t
  {
    match t {
      case Nil =>
      case Bin(l, i, _, r) =>
        assert Slots(t) == Slots(l) + {i} + Slots(r);
        var left := Lay(nodes, l, lo, i);
        LayRep(nodes, l, lo, i);
        LayRep(left, r, i, hi);
        RepFrame(left, Lay(nodes, t, lo, hi), l, lo, i);
        RepFrame(Lay(left, r, i, hi), Lay(nodes, t, lo, hi), r, i, hi);
    }
  }

  predicate Below(a: int, b: int) { a < b }

  /** The tree `t` with its nodes numbered in order, and slot `i` holding the key `i`. */
  function Built(t: Tree): Parts<int, int> {
    var n := |Inorder(t)|;
    var u := Numbered(t, 0);
    NumberedDistinct(t, 0);
    var root := TreeRoot(SlotOf(u), true, n, true, First(Inorder(u)), Last(Inorder(u)));
    Parts(root, Lay(seq(n, _ => BLANK), u, NIL, NIL), seq(n, i => (i, i)), NIL)
  }

  ghost function BuiltShadow(t: Tree): Shadow { Shadow(Numbered(t, 0), [], {}) }

  lemma BuiltTree(t: Tree)
    requires RedBlack(t)
    ensures IsTree(Built(t).nodes, Built(t).root, Numbered(t, 0))
    ensures |Built(t).nodes| == |Built(t).elems| == |Inorder(t)|
  {
    NumberedOk(t, 0);
    NumberedDistinct(t, 0);
    LayRep(seq(|Inorder(t)|, _ => BLANK), Numbered(t, 0), NIL, NIL);
  }

  lemma BuiltSorted(t: Tree)
    ensures Sorted(Below, Built(t).elems, Inorder(Numbered(t, 0)))
    ensures KeysDiffer(Below, Built(t).elems, Inorder(Numbered(t, 0)))
  {
    NumberedOk(t, 0);
  }

  lemma FullPool(nodes: seq<Cell>, live: set<nat>)
    requires forall x: nat :: x in live <==> x < |nodes|
    ensures PoolOk(nodes, |nodes|, NIL, [], live, {})
  {
    UptoMembers(|nodes|);
    assert live == Upto(|nodes|);
    assert Elements([]) == {};
  }

  lemma BuiltWhole(t: Tree, unique: bool)
    requires RedBlack(t)
    ensures Whole(Below, unique, Built(t), BuiltShadow(t))
    ensures |Built(t).nodes| == |Inorder(t)| && Built(t).free == NIL
  {
    BuiltTree(t);
    BuiltSorted(t);
    NumberedDistinct(t, 0);
    FullPool(Built(t).nodes, Slots(Numbered(t, 0)));
    assert forall a, b, c :: OrderedAt(Below, a, b, c);
  }

  // ---- Insertion.

  /** The length of the path that always goes right. */
  function RightSpine(t: Tree): nat { if t.Nil? then 0 else 1 + RightSpine(t.right) }

  lemma {:induction false} RightmostPath(t: Tree, n: nat, f: nat -> bool)
    requires forall x :: x in Slots(Numbered(t, n)) ==> !f(x)
    ensures PathLength(Numbered(t, n), f) == RightSpine(t)
    decreases t
  {
    match t {
      case Nil =>
      case Bin(l, _, _, r) => RightmostPath(r, n + |Inorder(l)| + 1, f);
    }
  }

  lemma {:induction false} LeanRight(m: nat)
    ensures RightSpine(Lean(m, false)) == 2 * m
  {
    if m == 0 {
    } else {
      LeanRight(m - 1);
    }
  }

  lemma TallRight(h: nat)
    requires h > 0
    ensures RightSpine(Tall(h, false, false)) == h
  {
    LeanRight(if h % 2 == 1 then h / 2 else h / 2 - 1);
  }

  /** With the least number of elements for which `Fits` fails, inserting a new greatest key among equivalent keys
      finds the path too long and loses the slot it has already taken. */
  method LoseSlot(depth: nat) returns (p: Parts<int, int>, p': Parts<int, int>, out: Outcome, ghost g: Shadow,
      ghost g': Shadow)
    ensures Whole(Below, false, p, g) && g.lost == {} && |Inorder(g.tree)| == MinNodes(depth + 1)
    ensures Whole(Below, false, p', g') && out.PathTooLong? && |g'.lost| == 1
  {
    var t := Tall(depth + 1, false, false);
    p, g := Built(t), BuiltShadow(t);
    TallOk(depth + 1, false, false);
    TallRight(depth + 1);
    NumberedOk(t, 0);
    BuiltWhole(t, false);
    GreatestPath(t);
    var n := |p.nodes|;
    ghost var k;
    p', out, g', k := InsertMulti(Below, depth, p, (n, n), g);
  }

  /** A new greatest key goes to the right all the way. */
  lemma GreatestPath(t: Tree)
    ensures var n := |Inorder(t)|;
      PathLength(Numbered(t, 0), AboveNew(Below, Built(t).elems, n, n)) == RightSpine(t)
  {
    var n := |Inorder(t)|;
    var above := AboveNew(Below, Built(t).elems, n, n);
    NumberedDistinct(t, 0);
    forall x | x in Slots(Numbered(t, 0)) ensures !above(x) {
      assert x < n && Built(t).elems[x] == (x, x);
    }
    RightmostPath(t, 0, above);
  }

  // ---- Removal.

  lemma {:induction false} NumberedLeft(t: Tree, n: nat)
    ensures LeftSteps(Numbered(t, n)) == LeftSteps(t)
    decreases t
  {
    match t {
      case Nil =>
      case Bin(l, _, _, _) => NumberedLeft(l, n);
    }
  }

  lemma {:induction false} LeanLeft(m: nat)
    requires m > 0
    ensures LeftSteps(Lean(m, true)) == 2 * m - 1
  {
    if m == 1 {
    } else {
      LeanLeft(m - 1);
    }
  }

  /** With the least number of elements for which `Spacious` fails, the removal of the root, whose path is a single
      entry, descends to a successor that is too deep: it needs one entry more than the stack has. */
  lemma RemovalOverruns(depth: nat, unique: bool)
    requires depth > 0
    ensures var t := Tall(depth + 2, false, true); var u := Numbered(t, 0);
      && Whole(Below, unique, Built(t), BuiltShadow(t)) && |Inorder(u)| == MinNodes(depth + 2)
      && Fill(Top, u) == u && Depth(Top) + 1 <= depth && StackNeeded(Top, u) == depth + 1
  {
    var t := Tall(depth + 2, false, true);
    TallOk(depth + 2, false, true);
    NumberedOk(t, 0);
    BuiltWhole(t, unique);
    SuccessorDepth(depth);
    RootNeeds(t, 0);
  }

  /** What removing the root of a tree whose successor is at the bottom needs. */
  lemma RootNeeds(t: Tree, n: nat)
    requires RedBlack(t) && t.Bin? && t.right.Bin? && LeftSteps(t.right) + 2 == Height(t)
    ensures StackNeeded(Top, Numbered(t, n)) == Height(t) - 1
  {
    var u := Numbered(t, n);
    NumberedOk(t, n);
    NumberedLeft(t.right, n + |Inorder(t.left)| + 1);
    LeftDepth(Replaced(Top, u), u.right);
    NeededByHeight(Top, u);
  }

  lemma SuccessorDepth(depth: nat)
    requires depth > 0
    ensures var t := Tall(depth + 2, false, true); t.right.Bin? && LeftSteps(t.right) == depth
  {
    var h := depth + 2;
    if h % 2 == 1 {
      LeanLeft(h / 2);
    } else {
      LeanLeft(h / 2 - 1);
    }
  }

  /** Fewer elements leave room for every removal whose path is on the stack, and with 48 entries that is below
      2^26 - 2 elements. */
  lemma Spacious48(n: nat)
    ensures Spacious(n, 48) <==> n < 67108862
  {
    assert Pow2(5) == 0x20;
    assert Pow2(10) == 0x400;
    assert Pow2(15) == 0x8000;
    assert Pow2(20) == 0x100000;
    assert Pow2(25) == 0x2000000;
  }
}
