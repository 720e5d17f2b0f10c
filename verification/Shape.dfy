/** The shape of a red-black tree over pool slots, and the zipper used to speak
    about a search path.  Everything in this module is about values: no links,
    no threads. */
module Shape {

  datatype Tree = Nil | Bin(left: Tree, slot: nat, red: bool, right: Tree)

  function Inorder(t: Tree): seq<nat> {
    match t
    case Nil => []
    case Bin(l, i, _, r) => Inorder(l) + [i] + Inorder(r)
  }

  function Slots(t: Tree): set<nat> {
    match t
    case Nil => {}
    case Bin(l, i, _, r) => Slots(l) + {i} + Slots(r)
  }

  /** No slot occurs twice. */
  predicate Distinct(t: Tree) {
    match t
    case Nil => true
    case Bin(l, i, _, r) =>
      && i !in Slots(l) && i !in Slots(r) && Slots(l) !! Slots(r)
      && Distinct(l) && Distinct(r)
  }

  predicate IsRed(t: Tree) { t.Bin? && t.red }

  /** Black nodes on the left spine; on a balanced tree, on every path. */
  function BlackHeight(t: Tree): nat {
    match t
    case Nil => 0
    case Bin(l, _, red, _) => BlackHeight(l) + if red then 0 else 1
  }

  predicate Balanced(t: Tree) {
    match t
    case Nil => true
    case Bin(l, _, _, r) => Balanced(l) && Balanced(r) && BlackHeight(l) == BlackHeight(r)
  }

  predicate NoRedRed(t: Tree) {
    match t
    case Nil => true
    case Bin(l, _, red, r) =>
      && NoRedRed(l) && NoRedRed(r)
      && (red ==> !IsRed(l) && !IsRed(r))
  }

  /** The red-black invariant. */
  predicate RedBlack(t: Tree) {
    Balanced(t) && NoRedRed(t) && !IsRed(t)
  }

  function Blacken(t: Tree): Tree {
    match t
    case Nil => Nil
    case Bin(l, i, _, r) => Bin(l, i, false, r)
  }

  function Max(a: nat, b: nat): nat { if a < b then b else a }

  /** Nodes on the longest downward path. */
  function Height(t: Tree): nat {
    match t
    case Nil => 0
    case Bin(l, _, _, r) => 1 + Max(Height(l), Height(r))
  }

  /** `Join(true, t, ...)` puts `t` on the left of the node, `Join(false, t, ...)` on the right. */
  function Join(left: bool, t: Tree, slot: nat, red: bool, sibling: Tree): Tree {
    if left then Bin(t, slot, red, sibling) else Bin(sibling, slot, red, t)
  }

  /** A tree with one hole.  The outermost constructor is the frame next to the hole;
      `left` says that the hole is on the left of that frame's node. */
  datatype Ctx = Top | In(up: Ctx, slot: nat, red: bool, left: bool, sibling: Tree)

  function Fill(c: Ctx, t: Tree): Tree {
    match c
    case Top => t
    case In(up, i, red, left, s) => Fill(up, Join(left, t, i, red, s))
  }

  function Depth(c: Ctx): nat {
    match c
    case Top => 0
    case In(up, _, _, _, _) => Depth(up) + 1
  }

  function Before(c: Ctx): seq<nat> {
    match c
    case Top => []
    case In(up, i, _, left, s) => if left then Before(up) else Before(up) + Inorder(s) + [i]
  }

  function After(c: Ctx): seq<nat> {
    match c
    case Top => []
    case In(up, i, _, left, s) => if left then [i] + Inorder(s) + After(up) else After(up)
  }

  function CtxSlots(c: Ctx): set<nat> {
    match c
    case Top => {}
    case In(up, i, _, _, s) => {i} + Slots(s) + CtxSlots(up)
  }

  predicate CtxDistinct(c: Ctx) {
    match c
    case Top => true
    case In(up, i, _, _, s) =>
      && i !in Slots(s) && i !in CtxSlots(up) && Slots(s) !! CtxSlots(up)
      && Distinct(s) && CtxDistinct(up)
  }

  /** Every sibling is as high as the hole side, were the hole `h` black nodes high. */
  predicate CtxBalanced(c: Ctx, h: nat) {
    match c
    case Top => true
    case In(up, _, red, _, s) =>
      Balanced(s) && BlackHeight(s) == h && CtxBalanced(up, h + if red then 0 else 1)
  }

  predicate CtxRed(c: Ctx) { c.In? && c.red }

  predicate CtxNoRedRed(c: Ctx) {
    match c
    case Top => true
    case In(up, _, red, _, s) =>
      && NoRedRed(s) && CtxNoRedRed(up)
      && (red ==> !IsRed(s) && !CtxRed(up))
  }

  /** The root, if it is part of the context, is black. */
  predicate CtxRootBlack(c: Ctx) {
    match c
    case Top => true
    case In(up, _, red, _, _) => if up.Top? then !red else CtxRootBlack(up)
  }

  // ---- A filled context: each property splits into one of the context and one of the hole.

  lemma Regroup(a: seq<nat>, b: seq<nat>, i: nat, c: seq<nat>, d: seq<nat>)
    ensures a + (b + [i] + c) + d == (a + b + [i]) + c + d == a + b + ([i] + c + d)
  {
  }

  lemma {:induction false} FillInorder(c: Ctx, t: Tree)
    ensures Inorder(Fill(c, t)) == Before(c) + Inorder(t) + After(c)
    decreases c
  {
    if c.In? {
      FillInorder(c.up, Join(c.left, t, c.slot, c.red, c.sibling));
      if c.left {
        Regroup(Before(c.up), Inorder(t), c.slot, Inorder(c.sibling), After(c.up));
      } else {
        Regroup(Before(c.up), Inorder(c.sibling), c.slot, Inorder(t), After(c.up));
      }
    }
  }

  lemma {:induction false} FillSlots(c: Ctx, t: Tree)
    ensures Slots(Fill(c, t)) == CtxSlots(c) + Slots(t)
    decreases c
  {
    if c.Top? {
    } else {
      FillSlots(c.up, Join(c.left, t, c.slot, c.red, c.sibling));
    }
  }

  lemma {:induction false} FillDistinct(c: Ctx, t: Tree)
    ensures Distinct(Fill(c, t)) <==> CtxDistinct(c) && Distinct(t) && CtxSlots(c) !! Slots(t)
    decreases c
  {
    if c.Top? {
    } else {
      FillDistinct(c.up, Join(c.left, t, c.slot, c.red, c.sibling));
    }
  }

  lemma {:induction false} FillBalanced(c: Ctx, t: Tree)
    ensures Balanced(Fill(c, t)) <==> Balanced(t) && CtxBalanced(c, BlackHeight(t))
    decreases c
  {
    if c.Top? {
    } else {
      FillBalanced(c.up, Join(c.left, t, c.slot, c.red, c.sibling));
    }
  }

  lemma {:induction false} FillNoRedRed(c: Ctx, t: Tree)
    ensures NoRedRed(Fill(c, t)) <==> NoRedRed(t) && CtxNoRedRed(c) && !(IsRed(t) && CtxRed(c))
    decreases c
  {
    if c.Top? {
    } else {
      FillNoRedRed(c.up, Join(c.left, t, c.slot, c.red, c.sibling));
    }
  }

  lemma {:induction false} FillRootBlack(c: Ctx, t: Tree)
    requires c.In?
    ensures !IsRed(Fill(c, t)) <==> CtxRootBlack(c)
    decreases c
  {
    if c.up.Top? {
    } else {
      FillRootBlack(c.up, Join(c.left, t, c.slot, c.red, c.sibling));
    }
  }

  lemma {:induction false} FillHeight(c: Ctx, t: Tree)
    ensures Depth(c) + Height(t) <= Height(Fill(c, t))
    decreases c
  {
    if c.Top? {
    } else {
      FillHeight(c.up, Join(c.left, t, c.slot, c.red, c.sibling));
    }
  }

  lemma {:induction false} FillHeightMono(c: Ctx, t: Tree, u: Tree)
    requires Height(t) <= Height(u)
    ensures Height(Fill(c, t)) <= Height(Fill(c, u))
    decreases c
  {
    if c.Top? {
    } else {
      FillHeightMono(c.up, Join(c.left, t, c.slot, c.red, c.sibling), Join(c.left, u, c.slot, c.red, c.sibling));
    }
  }

  lemma {:induction false} SlotsAreInorder(t: Tree)
    ensures forall x :: x in Slots(t) <==> x in Inorder(t)
  {
    if t.Nil? {
    } else {
      SlotsAreInorder(t.left);
      SlotsAreInorder(t.right);
    }
  }

  lemma {:induction false} CtxSlotsAreInorder(c: Ctx)
    ensures forall x :: x in CtxSlots(c) <==> x in Before(c) || x in After(c)
  {
    if c.Top? {
    } else {
      SlotsAreInorder(c.sibling);
      CtxSlotsAreInorder(c.up);
    }
  }

  /** Two trees with the same slots in the same order, none twice unless in both. */
  ghost predicate SameOrder(t: Tree, u: Tree) {
    Inorder(t) == Inorder(u) && Slots(t) == Slots(u) && Distinct(t) == Distinct(u)
  }

  /** A rotation keeps the order, whatever the colours. */
  lemma RotationOrder(a: Tree, x: nat, b: Tree, y: nat, c: Tree, r1: bool, r2: bool, r3: bool, r4: bool)
    ensures SameOrder(Bin(Bin(a, x, r1, b), y, r2, c), Bin(a, x, r3, Bin(b, y, r4, c)))
  {
    var t, u := Bin(Bin(a, x, r1, b), y, r2, c), Bin(a, x, r3, Bin(b, y, r4, c));
    assert Slots(t.left) == Slots(a) + {x} + Slots(b);
    assert Slots(u.right) == Slots(b) + {y} + Slots(c);
    assert Inorder(t) == Inorder(a) + [x] + (Inorder(b) + [y] + Inorder(c)) == Inorder(u);
  }

  function Sub(t: Tree, left: bool): Tree
    requires t.Bin?
  {
    if left then t.left else t.right
  }

  /** The child on side `left` rises above its parent, the root of `t`. */
  function RotateUp(left: bool, t: Tree): Tree
    requires t.Bin? && Sub(t, left).Bin?
  {
    var y := Sub(t, left);
    Join(left, Sub(y, left), y.slot, y.red, Join(left, Sub(y, !left), t.slot, t.red, Sub(t, !left)))
  }

  lemma RotateUpOrder(left: bool, t: Tree)
    requires t.Bin? && Sub(t, left).Bin?
    ensures SameOrder(RotateUp(left, t), t)
  {
    var y := Sub(t, left);
    if left {
      RotationOrder(y.left, y.slot, y.right, t.slot, t.right, y.red, t.red, y.red, t.red);
    } else {
      RotationOrder(t.left, t.slot, y.left, y.slot, y.right, t.red, y.red, t.red, y.red);
    }
  }

  /** Replacing a subtree by one with the same order keeps the order of the whole. */
  lemma FillOrder(c: Ctx, t: Tree, u: Tree)
    requires SameOrder(t, u)
    ensures SameOrder(Fill(c, t), Fill(c, u))
  {
    FillInorder(c, t);
    FillInorder(c, u);
    FillSlots(c, t);
    FillSlots(c, u);
    FillDistinct(c, t);
    FillDistinct(c, u);
  }

  ghost predicate NoDuplicates(s: seq<nat>) {
    forall i, j :: 0 <= i < j < |s| ==> s[i] != s[j]
  }

  lemma NoDuplicatesConcat(a: seq<nat>, b: seq<nat>)
    requires NoDuplicates(a) && NoDuplicates(b)
    requires forall x :: x in a ==> x !in b
    ensures NoDuplicates(a + b)
  {
    forall i, j | 0 <= i < j < |a + b| ensures (a + b)[i] != (a + b)[j] {
      assert i < |a| ==> (a + b)[i] in a;
      assert j >= |a| ==> (a + b)[j] in b;
    }
  }

  lemma {:induction false} DistinctInorder(t: Tree)
    requires Distinct(t)
    ensures NoDuplicates(Inorder(t))
  {
    if t.Nil? {
    } else {
      DistinctInorder(t.left);
      DistinctInorder(t.right);
      SlotsAreInorder(t.left);
      SlotsAreInorder(t.right);
      NoDuplicatesConcat(Inorder(t.left), [t.slot]);
      NoDuplicatesConcat(Inorder(t.left) + [t.slot], Inorder(t.right));
    }
  }

  lemma NoDuplicatesSplit(a: seq<nat>, b: seq<nat>)
    requires NoDuplicates(a + b)
    ensures NoDuplicates(a) && NoDuplicates(b)
    ensures forall x :: x in a ==> x !in b
  {
    var s := a + b;
    assert forall i :: 0 <= i < |a| ==> s[i] == a[i];
    forall i, j | 0 <= i < j < |b| ensures b[i] != b[j] {
      assert s[|a| + i] == b[i] && s[|a| + j] == b[j];
    }
    forall i, j | 0 <= i < |a| && 0 <= j < |b| ensures a[i] != b[j] {
      assert s[i] == a[i] && s[|a| + j] == b[j];
    }
  }

  lemma {:induction false} InorderDistinct(t: Tree)
    requires NoDuplicates(Inorder(t))
    ensures Distinct(t)
  {
    if t.Nil? {
    } else {
      NoDuplicatesSplit(Inorder(t.left) + [t.slot], Inorder(t.right));
      NoDuplicatesSplit(Inorder(t.left), [t.slot]);
      InorderDistinct(t.left);
      InorderDistinct(t.right);
      SlotsAreInorder(t.left);
      SlotsAreInorder(t.right);
      assert t.slot in Inorder(t.left) + [t.slot];
    }
  }

  // ---- The least node of a tree.

  function LeftMost(t: Tree): Tree
    requires t.Bin?
    ensures LeftMost(t).Bin? && LeftMost(t).left.Nil?
  {
    if t.left.Nil? then t else LeftMost(t.left)
  }

  /** The context of the least node of `t` when `t` fills `c`. */
  function LeftCtx(c: Ctx, t: Tree): Ctx
    requires t.Bin?
    decreases t
  {
    if t.left.Nil? then c else LeftCtx(In(c, t.slot, t.red, true, t.right), t.left)
  }

  /** The tree with its least node replaced by that node's right subtree. */
  function WithoutMin(t: Tree): Tree
    requires t.Bin?
  {
    if t.left.Nil? then t.right else Bin(WithoutMin(t.left), t.slot, t.red, t.right)
  }

  lemma {:induction false} LeftFill(c: Ctx, t: Tree)
    requires t.Bin?
    ensures Fill(LeftCtx(c, t), LeftMost(t)) == Fill(c, t)
    ensures Fill(LeftCtx(c, t), LeftMost(t).right) == Fill(c, WithoutMin(t))
    decreases t
  {
    if t.left.Nil? {
    } else {
      LeftFill(In(c, t.slot, t.red, true, t.right), t.left);
    }
  }

  lemma {:induction false} MinInorder(t: Tree)
    requires t.Bin?
    ensures Inorder(t) == [LeftMost(t).slot] + Inorder(WithoutMin(t))
    ensures Height(WithoutMin(t)) <= Height(t)
  {
    if t.left.Nil? {
    } else {
      MinInorder(t.left);
      assert Inorder(t) == [LeftMost(t).slot] + (Inorder(WithoutMin(t.left)) + [t.slot] + Inorder(t.right));
    }
  }
}
