/** Rebalancing removal: `threaded_rbtree_remove`. */
module Removal {
  import opened Shape
  import opened Threads
  import opened PathStacks
  import opened Rotation
  import opened RemovalBalance
  import opened Roots
  import opened Splicing
  import opened Traversal

  // ---- What the loop reads.

  predicate Follows(nodes: seq<Cell>, l: Link, t: Tree) {
    if t.Nil? then l.thread else l == Link(false, t.slot) && t.slot < |nodes| && nodes[t.slot].red == t.red
  }

  /** The innermost frame: where it is on the stack, and what its two links lead to. */
  lemma Look(nodes: seq<Cell>, root: int, s: seq<Entry>, k: nat, c: Ctx, t: Tree)
    requires 0 < k && At(nodes, root, s, k, c, t)
    ensures c.In? && s[k - 1] == Entry(c.slot, c.left) && OnStack(c.up, s, k - 1)
    ensures c.slot < |nodes| && nodes[c.slot].red == c.red
    ensures Follows(nodes, Get(nodes[c.slot], c.left), t) && Follows(nodes, Get(nodes[c.slot], !c.left), c.sibling)
  {
    HoldsFill(nodes, root, c, t);
  }

  /** The children of the sibling. */
  lemma LookNephews(nodes: seq<Cell>, root: int, c: Ctx, t: Tree)
    requires c.In? && c.sibling.Bin? && Holds(nodes, root, Fill(c, t))
    ensures c.sibling.slot < |nodes|
    ensures Follows(nodes, Get(nodes[c.sibling.slot], c.left), Near(c)) &&
        Follows(nodes, Get(nodes[c.sibling.slot], !c.left), Far(c))
  {
    HoldsFill(nodes, root, c, t);
    var w := c.sibling;
    var lo, hi := if c.left then c.slot else Lo(c.up), if c.left then Hi(c.up) else c.slot;
    assert Rep(nodes, w, lo, hi);
    assert Rep(nodes, w.left, lo, w.slot) && Rep(nodes, w.right, w.slot, hi);
  }

  // ---- The steps.

  /** The sibling seen as a subtree: the same whole with the hole on the other side. */
  function Across(c: Ctx, t: Tree): Ctx
    requires c.In?
  {
    In(c.up, c.slot, c.red, !c.left, t)
  }

  /** The sibling `w` of the hole is red: it rises, and the stack is extended by the old parent. */
  method LiftRedSibling(nodes: seq<Cell>, root: int, stack: PathStack, k: nat, w: nat, ghost c: Ctx, ghost t: Tree)
    returns (nodes': seq<Cell>, root': int)
    requires 0 < k && At(nodes, root, stack.entries[..], k, c, t) && Deficit(c, t)
    requires c.In? && IsRed(c.sibling) && w == c.sibling.slot
    requires k < stack.entries.Length
    modifies stack`reach, stack.entries
    ensures At(nodes', root', stack.entries[..], k + 1, RedSibling(c), t)
    ensures stack.reach == Max(old(stack.reach), k + 1)
    ensures SameOrder(Fill(RedSibling(c), t), Fill(c, t))
    ensures SameOutside(nodes, nodes', Slots(Fill(c, t)))
  {
    ghost var s := stack.entries[..];
    Look(nodes, root, s, k, c, t);
    SiblingThere(c, t);
    RedSiblingOk(c, t);
    var p, d := stack.entries[k - 1].slot, stack.entries[k - 1].left;
    assert Fill(Across(c, t), c.sibling) == Fill(c, t);
    nodes' := Paint(nodes, root, w, false, Across(c, t), c.sibling);
    ghost var x := Join(d, t, p, c.red, c.sibling.(red := false));
    nodes' := Paint(nodes', root, p, true, c.up, x);
    nodes', root' := RotateOuterChild(nodes', root, stack, k - 1, p, w, !d, c.up, x.(red := true));
    stack.UpdateIndex(k, stack.entries[k - 1].slot, d);
    stack.UpdateSlot(k - 1, w);
    OnStackFrame(c.up, s, stack.entries[..], k - 1);
  }

  /** The last rotation: the far nephew is red. */
  method LiftSibling(nodes: seq<Cell>, root: int, stack: PathStack, k: nat, w: nat, ghost c: Ctx, ghost t: Tree)
    returns (nodes': seq<Cell>, root': int)
    requires 0 < k && At(nodes, root, stack.entries[..], k, c, t)
    requires Deficit(c, t) && !IsRed(t) && c.In? && c.sibling.Bin? && !c.sibling.red && IsRed(Far(c))
    requires w == c.sibling.slot
    ensures Holds(nodes', root', Fill(c.up, FarRisen(c, t))) && Settled(Fill(c.up, FarRisen(c, t)))
    ensures SameOrder(Fill(c.up, FarRisen(c, t)), Fill(c, t))
    ensures SameOutside(nodes, nodes', Slots(Fill(c, t)))
  {
    Look(nodes, root, stack.entries[..], k, c, t);
    FarRisenOk(c, t);
    var p, d := stack.entries[k - 1].slot, stack.entries[k - 1].left;
    ghost var a := Across(c, t);
    assert Fill(a, c.sibling) == Fill(c, t);
    nodes' := Paint(nodes, root, w, nodes[p].red, a, c.sibling);
    ghost var u := c.sibling.(red := c.red);
    nodes' := Paint(nodes', root, p, false, c.up, Join(d, t, p, c.red, u));
    ghost var c1 := c.(red := false, sibling := u);
    LookNephews(nodes', root, c1, t);
    ghost var f := In(Across(c1, t), w, c.red, !d, Near(c));
    assert Fill(f, Far(c)) == Fill(c1, t);
    nodes' := Paint(nodes', root, Get(nodes'[w], !d).to, false, f, Far(c));
    ghost var x := Join(d, t, p, false, Join(d, Near(c), w, c.red, Far(c).(red := false)));
    assert Fill(f, Far(c).(red := false)) == Fill(c.up, x);
    nodes', root' := RotateOuter(nodes', root, stack, k - 1, p, w, !d, c.up, x);
  }

  /** Only the near nephew is red: it rises above the sibling `w` and becomes the new sibling. */
  method LiftNear(nodes: seq<Cell>, root: int, p: nat, w: nat, d: bool, ghost c: Ctx, ghost t: Tree)
    returns (nodes': seq<Cell>, y: nat)
    requires c.In? && c.sibling.Bin? && Near(c).Bin?
    requires p == c.slot && w == c.sibling.slot && d == c.left
    requires Holds(nodes, root, Fill(c, t)) && Distinct(Fill(c, t))
    ensures y == Near(c).slot
    ensures Holds(nodes', root, Fill(NearRisen(c), t))
    ensures SameOrder(Fill(NearRisen(c), t), Fill(c, t))
    ensures SameOutside(nodes, nodes', Slots(Fill(c, t)))
  {
    LookNephews(nodes, root, c, t);
    y := Get(nodes[w], d).to;
    ghost var a := Across(c, t);
    ghost var n := In(a, w, c.sibling.red, d, Far(c));
    assert Fill(n, Near(c)) == Fill(c, t);
    nodes' := Paint(nodes, root, y, false, n, Near(c));
    ghost var x := Join(d, Near(c).(red := false), w, c.sibling.red, Far(c));
    nodes' := Paint(nodes', root, w, true, a, x);
    nodes', y := RotateInner(nodes', root, p, w, !d, a, x.(red := true));
    assert Fill(a, RotateUp(d, x.(red := true))) == Fill(NearRisen(c), t);
  }

  // ---- The loop.

  predicate IsBlackLink(nodes: seq<Cell>, l: Link)
    requires l.thread || 0 <= l.to < |nodes|
  {
    l.thread || !nodes[l.to].red
  }

  /** A round with the hole of `c` filled by `t` lifts the sibling and so takes one more entry of the stack. */
  predicate Lifts(c: Ctx, t: Tree) { c.In? && !IsRed(t) && IsRed(c.sibling) }

  lemma Roomy(c: Ctx, t: Tree, n: nat)
    requires c.In? && c.sibling.Bin? && Near(c).Bin? && Height(Fill(c, t)) <= n
    ensures Depth(c) + 1 < n
  {
    FillHeight(c.up, Join(c.left, t, c.slot, c.red, c.sibling));
    assert Height(c.sibling) >= 1 + Height(Near(c));
  }

  /** The rest of one round, with a black sibling `w0`: either all is settled or the parent is short. */
  method BlackSibling(nodes: seq<Cell>, root: int, stack: PathStack, k: nat, w0: nat, ghost c: Ctx, ghost t: Tree)
    returns (nodes': seq<Cell>, root': int, done: bool, ghost u: Tree)
    requires 0 < k && At(nodes, root, stack.entries[..], k, c, t)
    requires Deficit(c, t) && !IsRed(t) && c.In? && c.sibling.Bin? && !c.sibling.red && w0 == c.sibling.slot
    ensures done ==> Holds(nodes', root', u) && Settled(u) && SameOrder(u, Fill(c, t))
    ensures !done ==> At(nodes', root', stack.entries[..], k - 1, c.up, u) && Deficit(c.up, u) && u == PassedUp(c, t)
                      && SameOrder(Fill(c.up, u), Fill(c, t))
    ensures SameOutside(nodes, nodes', Slots(Fill(c, t)))
  {
    Look(nodes, root, stack.entries[..], k, c, t);
    LookNephews(nodes, root, c, t);
    var w := w0;
    var p, d := stack.entries[k - 1].slot, stack.entries[k - 1].left;
    if IsBlackLink(nodes, Get(nodes[w], d)) && IsBlackLink(nodes, Get(nodes[w], !d)) {
      PassedUpOk(c, t);
      assert Fill(Across(c, t), c.sibling) == Fill(c, t);
      nodes' := Paint(nodes, root, w, true, Across(c, t), c.sibling);
      root', done, u := root, false, PassedUp(c, t);
    } else {
      ghost var c1 := c;
      nodes' := nodes;
      if IsBlackLink(nodes, Get(nodes[w], !d)) {
        NearRisenOk(c, t);
        nodes', w := LiftNear(nodes', root, p, w, d, c, t);
        c1 := NearRisen(c);
      }
      ghost var mid := nodes';
      nodes', root' := LiftSibling(nodes', root, stack, k, w, c1, t);
      done, u := true, Fill(c.up, FarRisen(c1, t));
    }
  }

  /** One round of the loop: a red node in the hole turns black, a red sibling is first lifted. */
  method Round(nodes: seq<Cell>, root: int, stack: PathStack, k: nat, ghost c: Ctx, ghost t: Tree)
    returns (nodes': seq<Cell>, root': int, k': nat, done: bool, ghost c': Ctx, ghost u: Tree)
    requires 0 < k && At(nodes, root, stack.entries[..], k, c, t) && Deficit(c, t)
    requires Lifts(c, t) ==> k < stack.entries.Length
    modifies stack`reach, stack.entries
    ensures stack.reach == if Lifts(c, t) then Max(old(stack.reach), k + 1) else old(stack.reach)
    ensures SameOrder(if done then u else Fill(c', u), Fill(c, t)) && SameOutside(nodes, nodes', Slots(Fill(c, t)))
    ensures done ==> Holds(nodes', root', u) && Settled(u)
    ensures !done ==> At(nodes', root', stack.entries[..], k', c', u) && Deficit(c', u) && !IsRed(t)
    ensures !done ==> k' <= k && (IsRed(u) || k' < k)
  {
    Look(nodes, root, stack.entries[..], k, c, t);
    SiblingThere(c, t);
    var p, d := stack.entries[k - 1].slot, stack.entries[k - 1].left;
    nodes', root', k', c' := nodes, root, k, c;
    if !Get(nodes'[p], d).thread && nodes'[Get(nodes'[p], d).to].red {
      RedSettles(c, t);
      nodes' := Paint(nodes', root', Get(nodes'[p], d).to, false, c, t);
      done, u := true, Fill(c, Blacken(t));
      return;
    }
    var w := Get(nodes'[p], !d).to;
    if nodes'[w].red {
      RedSiblingOk(c, t);
      nodes', root' := LiftRedSibling(nodes', root', stack, k, w, c, t);
      c', k' := RedSibling(c), k + 1;
      Look(nodes', root', stack.entries[..], k', c', t);
      w := Get(nodes'[stack.entries[k' - 1].slot], !d).to;
    }
    nodes', root', done, u := BlackSibling(nodes', root', stack, k', w, c', t);
    if !done {
      c', k' := c'.up, k' - 1;
    }
  }

  /** The loop that makes up for a missing black node. */
  method FixUp(nodes: seq<Cell>, root: int, stack: PathStack, top: nat, ghost c0: Ctx, ghost t0: Tree)
    returns (nodes': seq<Cell>, root': int, ghost u: Tree)
    requires At(nodes, root, stack.entries[..], top, c0, t0) && Deficit(c0, t0)
    requires top <= stack.reach && (Lifts(c0, t0) ==> top < stack.entries.Length)
    modifies stack`reach, stack.entries
    ensures Holds(nodes', root', u) && Settled(u) && SameOrder(u, Fill(c0, t0))
    ensures SameOutside(nodes, nodes', Slots(u))
    ensures stack.reach == if Lifts(c0, t0) then Max(old(stack.reach), top + 1) else old(stack.reach)
  {
    var k: nat := top;
    ghost var c := c0;
    ghost var reach := if Lifts(c0, t0) then Max(stack.reach, top + 1) else stack.reach;
    nodes', root', u := nodes, root, t0;
    while k > 0
      invariant At(nodes', root', stack.entries[..], k, c, u) && Deficit(c, u)
      invariant SameOrder(Fill(c, u), Fill(c0, t0)) && SameOutside(nodes, nodes', Slots(Fill(c, u)))
      invariant if c == c0 && u == t0 && k == top then stack.reach in {old(stack.reach), reach}
        else stack.reach == reach && k <= top && (IsRed(u) || k < top)
      decreases if IsRed(u) then 0 else 1, k
    {
      var done;
      nodes', root', k, done, c, u := Round(nodes', root', stack, k, c, u);
      if done {
        return;
      }
    }
  }

  // ---- The whole operation.

  /** Moves a cached end off the node about to go. */
  method DetachEnds(root: TreeRoot, nodes: seq<Cell>, p: nat, ghost c: Ctx, ghost t: Tree) returns (root': TreeRoot)
    requires t.Bin? && t.slot == p && Holds(nodes, root.root, Fill(c, t)) && Distinct(Fill(c, t))
    requires Agrees(root, Inorder(Fill(c, t)))
    ensures root'.root == root.root && root'.counted == root.counted && root'.ends == root.ends
    ensures Agrees(root', Inorder(Fill(c, Spliced(t))))
  {
    root' := root.DecreaseCount();
    if root'.ends && p == root'.left {
      var next := MoveNext(nodes, p, root.root, c, t);
      root' := root'.(left := next);
    }
    if root'.ends && p == root'.right {
      var prev := MovePrev(nodes, p, root.root, c, t);
      root' := root'.(right := prev);
    }
    DetachedEnds(c, t);
  }

  lemma DetachedEnds(c: Ctx, t: Tree)
    requires t.Bin? && Distinct(Fill(c, t))
    ensures var s, u := Inorder(Fill(c, t)), Inorder(Fill(c, Spliced(t)));
            && |s| == |u| + 1
            && First(u) == (if First(s) == t.slot then First(Inorder(t.right) + After(c)) else First(s))
            && Last(u) == (if Last(s) == t.slot then Last(Before(c) + Inorder(t.left)) else Last(s))
  {
    SplicedInorder(c, t);
    DistinctInorder(Fill(c, t));
    EndsWithoutOne(Before(c) + Inorder(t.left), t.slot, Inorder(t.right) + After(c));
  }

  lemma EndsWithoutOne(x: seq<nat>, i: nat, y: seq<nat>)
    requires NoDuplicates(x + [i] + y)
    ensures First(x + y) == if First(x + [i] + y) == i then First(y) else First(x + [i] + y)
    ensures Last(x + y) == if Last(x + [i] + y) == i then Last(x) else Last(x + [i] + y)
  {
    var s := x + [i] + y;
    assert s[|x|] == i;
    assert x != [] ==> s[0] == x[0] && s[0] != s[|x|];
    assert y != [] ==> s[|s| - 1] == y[|y| - 1] && s[|s| - 1] != s[|x|];
  }

  /** Marks the node on top of the stack empty and takes it out. */
  method TakeOut(nodes: seq<Cell>, root: int, stack: PathStack, j: nat, ghost c: Ctx, ghost t: Tree)
    returns (nodes': seq<Cell>, root': int, k: nat)
    requires t.Bin? && Holds(nodes, root, Fill(c, t)) && Distinct(Fill(c, t))
    requires j < stack.entries.Length && OnStack(c, stack.entries[..], j) && stack.entries[j] == Entry(t.slot, false)
    requires Depth(GapCtx(c, t)) <= stack.entries.Length && j < stack.reach
    modifies stack`reach, stack.entries
    ensures stack.reach == Max(old(stack.reach), Depth(GapCtx(c, t)))
    ensures At(nodes', root', stack.entries[..], k, GapCtx(c, t), GapTree(t))
    ensures SameOutside(nodes, nodes', Slots(Fill(c, t)))
    ensures t.slot < |nodes'| && nodes'[t.slot].red == GapRed(t) && nodes'[t.slot].empty
  {
    HoldsOpened(nodes, root, c, t);
    FillSlots(c, t);
    nodes' := SetEmpty(nodes, stack.entries[j].slot, true);
    nodes', root', k := Splice(nodes', root, stack, j, c, t);
  }

  /** Makes up for a black gap and paints the root black. */
  method Settle(nodes: seq<Cell>, root: int, stack: PathStack, k: nat, ghost c: Ctx, ghost t: Tree)
    returns (nodes': seq<Cell>, root': int, ghost u: Tree)
    requires At(nodes, root, stack.entries[..], k, c, t) && Deficit(c, t)
    requires k <= stack.reach && (Lifts(c, t) ==> k < stack.entries.Length)
    modifies stack`reach, stack.entries
    ensures stack.reach == if Lifts(c, t) then Max(old(stack.reach), k + 1) else old(stack.reach)
    ensures Holds(nodes', root', u) && RedBlack(u) && Distinct(u) && Inorder(u) == Inorder(Fill(c, t))
    ensures SameOutside(nodes, nodes', Slots(Fill(c, t)))
  {
    nodes', root', u := FixUp(nodes, root, stack, k, c, t);
    if root' != NIL {
      nodes', u := BlackenRoot(nodes', root', u);
    }
  }

  /** The entries of the stack that a removal writes to: the path to the node, on to its successor, and one more if
      the first sibling there is to be lifted. */
  function StackNeeded(c: Ctx, t: Tree): nat
    requires t.Bin?
  {
    var g := GapCtx(c, t);
    Max(Depth(c) + 1, Depth(g) + if !GapRed(t) && Lifts(g, GapTree(t)) then 1 else 0)
  }

  lemma LiftNeeds(c: Ctx, t: Tree)
    requires t.Bin? && RedBlack(Fill(c, t)) && !GapRed(t) && Lifts(GapCtx(c, t), GapTree(t))
    ensures Depth(GapCtx(c, t)) + 1 < Height(Fill(c, t))
  {
    var g, e := GapCtx(c, t), GapTree(t);
    SplicedFill(c, t);
    SplicedInorder(c, t);
    SplicedBalance(c, t);
    SiblingThere(g, e);
    Roomy(g, e, Height(Fill(g, e)));
  }

  lemma DescentNeeds(c: Ctx, t: Tree)
    requires t.Bin? && t.right.Bin?
    ensures Depth(GapCtx(c, t)) < Height(Fill(c, t))
  {
    var f := In(c, t.slot, t.red, false, t.left);
    LeftFill(f, t.right);
    LeftDepth(f, t.right);
    LeftDepth(Replaced(c, t), t.right);
    FillHeight(LeftCtx(f, t.right), LeftMost(t.right));
  }

  /** A tree at most one node higher than the stack is long has room for every removal whose path is on the stack. */
  lemma NeededByHeight(c: Ctx, t: Tree)
    requires t.Bin? && RedBlack(Fill(c, t))
    ensures StackNeeded(c, t) <= Depth(c) + 1 || StackNeeded(c, t) < Height(Fill(c, t))
  {
    if !GapRed(t) && Lifts(GapCtx(c, t), GapTree(t)) {
      LiftNeeds(c, t);
    } else if t.right.Bin? {
      DescentNeeds(c, t);
    }
  }

  /** Removes the node on top of the stack. */
  method Remove(root: TreeRoot, nodes: seq<Cell>, stack: PathStack, ghost c: Ctx, ghost t: Tree)
    returns (root': TreeRoot, nodes': seq<Cell>, ghost u: Tree)
    requires t.Bin? && IsTree(nodes, root, Fill(c, t))
    requires 0 < stack.height <= stack.entries.Length
    requires OnStack(c, stack.entries[..], stack.height - 1) && stack.entries[stack.height - 1] == Entry(t.slot, false)
    requires StackNeeded(c, t) <= stack.entries.Length && stack.height <= stack.reach
    modifies stack`reach, stack.entries
    ensures stack.reach == Max(old(stack.reach), StackNeeded(c, t))
    ensures IsTree(nodes', root', u)
    ensures Inorder(u) == (Before(c) + Inorder(t.left)) + (Inorder(t.right) + After(c))
    ensures SameOutside(nodes, nodes', Slots(Fill(c, t))) && t.slot < |nodes'| && nodes'[t.slot].empty
    ensures root'.counted == root.counted && root'.ends == root.ends
  {
    var k := stack.height - 1;
    OnStackDepth(c, stack.entries[..], k);
    var p := stack.entries[k].slot;
    root' := DetachEnds(root, nodes, p, c, t);
    SplicedFill(c, t);
    SplicedInorder(c, t);
    SplicedOrder(c, t);
    SplicedBalance(c, t);
    var r;
    nodes', r, k := TakeOut(nodes, root'.root, stack, k, c, t);
    OnStackDepth(GapCtx(c, t), stack.entries[..], k);
    u := Fill(c, Spliced(t));
    if !nodes'[p].red {
      nodes', r, u := Settle(nodes', r, stack, k, GapCtx(c, t), GapTree(t));
    }
    root' := root'.(root := r);
  }
}
