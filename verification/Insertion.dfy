/** Rebalancing insertion: `threaded_rbtree_insert`. */
module Insertion {
  import opened Shape
  import opened Threads
  import opened PathStacks
  import opened Rotation
  import opened Roots

  // ---- The tree each step of the fix-up produces.

  /** A red node under a red node: the innermost two frames of `c` and the subtree `t`. */
  ghost predicate RedViolation(c: Ctx, t: Tree) {
    && Balanced(t) && NoRedRed(t) && IsRed(t)
    && CtxBalanced(c, BlackHeight(t)) && CtxNoRedRed(c) && CtxRootBlack(c)
  }

  /** The subtree above a recoloured grandparent. */
  function Recoloured(c: Ctx, t: Tree): Tree
    requires c.In? && c.up.In? && c.up.sibling.Bin?
  {
    Join(c.up.left, Join(c.left, t, c.slot, false, c.sibling), c.up.slot, true, Blacken(c.up.sibling))
  }

  /** What the two innermost frames say about their siblings. */
  lemma TwoFrames(c: Ctx, t: Tree)
    requires RedViolation(c, t) && CtxRed(c) && c.up.In?
    ensures Balanced(c.sibling) && NoRedRed(c.sibling) && !IsRed(c.sibling)
    ensures Balanced(c.up.sibling) && NoRedRed(c.up.sibling) && !c.up.red
    ensures BlackHeight(c.sibling) == BlackHeight(c.up.sibling) == BlackHeight(t)
    ensures CtxBalanced(c.up.up, BlackHeight(t) + 1)
    ensures CtxNoRedRed(c.up.up) && CtxRootBlack(c.up.up)
  {
    assert CtxBalanced(c.up, BlackHeight(t));
    assert CtxNoRedRed(c.up) && CtxRootBlack(c.up);
  }

  lemma RecolouredOk(c: Ctx, t: Tree)
    requires RedViolation(c, t) && CtxRed(c)
    requires c.up.In? && IsRed(c.up.sibling)
    ensures RedViolation(c.up.up, Recoloured(c, t))
  {
    TwoFrames(c, t);
    var p1, u := Join(c.left, t, c.slot, false, c.sibling), Blacken(c.up.sibling);
    assert Balanced(p1) && NoRedRed(p1) && BlackHeight(p1) == BlackHeight(t) + 1;
    assert Balanced(u) && NoRedRed(u) && BlackHeight(u) == BlackHeight(t) + 1;
  }

  /** The subtree a single or double rotation leaves in place of the grandparent. */
  function Rotated(c: Ctx, t: Tree): Tree
    requires c.In? && c.up.In? && t.Bin?
  {
    var d := c.up.left;
    if c.left == d then
      Join(d, t, c.slot, false, Join(d, c.sibling, c.up.slot, true, c.up.sibling))
    else if d then
      Bin(Bin(c.sibling, c.slot, true, t.left), t.slot, false, Bin(t.right, c.up.slot, true, c.up.sibling))
    else
      Bin(Bin(c.up.sibling, c.up.slot, true, t.left), t.slot, false, Bin(t.right, c.slot, true, c.sibling))
  }

  lemma RotatedOk(c: Ctx, t: Tree)
    requires RedViolation(c, t) && CtxRed(c)
    requires c.up.In? && !IsRed(c.up.sibling)
    ensures RedBlack(Fill(c.up.up, Rotated(c, t)))
  {
    TwoFrames(c, t);
    var r := Rotated(c, t);
    assert Balanced(r.left) && NoRedRed(r.left) && BlackHeight(r.left) == BlackHeight(t);
    assert Balanced(r.right) && NoRedRed(r.right) && BlackHeight(r.right) == BlackHeight(t);
    FillBalanced(c.up.up, r);
    FillNoRedRed(c.up.up, r);
    if c.up.up.In? { FillRootBlack(c.up.up, r); }
  }

  // ---- Memory.

  /** The two innermost frames on the stack and in memory. */
  lemma Zoom(nodes: seq<Cell>, root: int, s: seq<Entry>, n: nat, c: Ctx, t: Tree)
    requires At(nodes, root, s, n, c, t) && c.In? && c.up.In?
    ensures n >= 2 && s[n - 1] == Entry(c.slot, c.left) && s[n - 2] == Entry(c.up.slot, c.up.left)
    ensures OnStack(c.up.up, s, n - 2)
    ensures c.up.slot < |nodes| &&
        Get(nodes[c.up.slot], !c.up.left) == LinkTo(SlotOf(c.up.sibling),
            if c.up.left then Hi(c.up.up) else Lo(c.up.up))
    ensures c.up.sibling.Bin? ==> c.up.sibling.slot < |nodes| && nodes[c.up.sibling.slot].red == c.up.sibling.red
  {
    HoldsFill(nodes, root, c, t);
    assert OnStack(c.up, s, n - 1);
    assert RepCtx(nodes, root, c.up, c.slot);
  }

  /** The rotation that ends the fix-up: single if the new node leans the same way as its parent, else double. */
  method Rotate(nodes: seq<Cell>, root: int, stack: PathStack, k: nat, ghost c: Ctx, ghost t: Tree)
    returns (nodes': seq<Cell>, root': int)
    requires 1 <= k < stack.entries.Length
    requires At(nodes, root, stack.entries[..], k + 1, c, t) && t.Bin?
    requires c.In? && c.up.In? && t.red && c.red
    ensures Holds(nodes', root', Fill(c.up.up, Rotated(c, t)))
    ensures SameOrder(Fill(c.up.up, Rotated(c, t)), Fill(c, t))
    ensures SameOutside(nodes, nodes', Slots(Fill(c, t)))
  {
    ghost var g := c.up;
    Zoom(nodes, root, stack.entries[..], k + 1, c, t);
    var p2, p1, d := stack.entries[k - 1].slot, stack.entries[k].slot, stack.entries[k - 1].left;
    var y: nat;
    ghost var q := Join(c.left, t, p1, true, c.sibling);
    assert Fill(g, q) == Fill(c, t);
    nodes' := nodes;
    if stack.entries[k].left == d {
      y := p1;
    } else {
      nodes', y := RotateInner(nodes', root, p2, p1, d, g, q);
      q := RotateUp(!d, q);
    }
    assert Fill(g.up, Join(d, q, p2, g.red, g.sibling)) == Fill(g, q);
    nodes' := Paint(nodes', root, p2, true, g.up, Join(d, q, p2, g.red, g.sibling));
    nodes' := Paint(nodes', root, y, false, g.(red := true), q);
    ghost var x := Join(d, q.(red := false), p2, true, g.sibling);
    nodes', root' := RotateOuter(nodes', root, stack, k - 1, p2, y, d, g.up, x);
    assert RotateUp(d, x) == Rotated(c, t);
  }

  // ---- Attaching the new node.

  /** The new cell, a red leaf between its neighbours, and the link of its parent `where`. */
  method Attach(nodes: seq<Cell>, where: nat, left: bool, index: nat) returns (nodes': seq<Cell>)
    requires where < |nodes| && index < |nodes| && where != index
    requires Get(nodes[where], left).thread
    ensures |nodes'| == |nodes|
    ensures nodes'[index] == WithLink(Cell(Link(true, where), Link(true, where), true, false), left,
        Get(nodes[where], left))
    ensures nodes'[where] == WithLink(nodes[where], left, Link(false, index))
    ensures forall i :: 0 <= i < |nodes| && i != where && i != index ==> nodes'[i] == nodes[i]
  {
    nodes' := SetEmpty(nodes, index, false);
    nodes' := SetThread(nodes', index, true, true);
    nodes' := SetThread(nodes', index, false, true);
    nodes' := SetRed(nodes', index, true);
    nodes' := SetLink(nodes', index, left, Get(nodes'[where], left).to);
    nodes' := SetLink(nodes', index, !left, where);
    nodes' := SetThread(nodes', where, left, false);
    nodes' := SetLink(nodes', where, left, index);
  }

  function RedLeaf(index: nat): Tree { Bin(Nil, index, true, Nil) }

  lemma AttachedHolds(nodes: seq<Cell>, nodes': seq<Cell>, root: int, c: Ctx, index: nat)
    requires c.In? && Holds(nodes, root, Fill(c, Nil)) && Distinct(Fill(c, Nil))
    requires index < |nodes| && index !in CtxSlots(c) && c.slot < |nodes|
    requires nodes'[..] == nodes' && |nodes'| == |nodes|
    requires nodes'[index] == WithLink(Cell(Link(true, c.slot), Link(true, c.slot), true, false), c.left,
        Get(nodes[c.slot], c.left))
    requires nodes'[c.slot] == WithLink(nodes[c.slot], c.left, Link(false, index))
    requires forall i :: 0 <= i < |nodes| && i != c.slot && i != index ==> nodes'[i] == nodes[i]
    ensures Holds(nodes', root, Fill(c, RedLeaf(index))) && Distinct(Fill(c, RedLeaf(index)))
    ensures SameOutside(nodes, nodes', CtxSlots(c) + {index})
  {
    HoldsFill(nodes, root, c, Nil);
    FillDistinct(c, Nil);
    FillDistinct(c, RedLeaf(index));
    Graft(nodes, nodes', root, root, c, NIL, RedLeaf(index));
  }

  // ---- Recolouring.

  /** The uncle is red: parent and uncle become black, the grandparent red. */
  method Recolour(nodes: seq<Cell>, root: int, p2: nat, p1: nat, u: nat, ghost c: Ctx, ghost t: Tree)
      returns (nodes': seq<Cell>)
    requires c.In? && c.up.In? && c.up.sibling.Bin?
    requires p1 == c.slot && p2 == c.up.slot && u == c.up.sibling.slot
    requires Holds(nodes, root, Fill(c, t)) && Distinct(Fill(c, t))
    ensures Holds(nodes', root, Fill(c.up.up, Recoloured(c, t))) && Distinct(Fill(c.up.up, Recoloured(c, t)))
    ensures Inorder(Fill(c.up.up, Recoloured(c, t))) == Inorder(Fill(c, t))
    ensures SameOutside(nodes, nodes', Slots(Fill(c, t)))
  {
    ghost var g := c.up;
    ghost var q1 := Join(c.left, t, p1, c.red, c.sibling);
    ghost var q2 := Join(c.left, t, p1, false, c.sibling);
    nodes' := Paint(nodes, root, p1, false, g, q1);
    ghost var g2 := In(g.up, p2, g.red, !g.left, q2);
    assert Fill(g2, g.sibling) == Fill(g, q2);
    nodes' := Paint(nodes', root, u, false, g2, g.sibling);
    ghost var q3 := Join(g.left, q2, p2, g.red, Blacken(g.sibling));
    assert Fill(g2, g.sibling.(red := false)) == Fill(g.up, q3);
    nodes' := Paint(nodes', root, p2, true, g.up, q3);
  }

  // ---- The whole operation.

  /** Trees with the same slots, in terms of the frame of a step. */
  lemma SlotsFromInorder(t: Tree, u: Tree)
    requires Inorder(t) == Inorder(u)
    ensures Slots(t) == Slots(u)
  {
    SlotsAreInorder(t);
    SlotsAreInorder(u);
  }

  /** The loop that walks the red-red violation up the path. */
  method FixUp(nodes: seq<Cell>, root: int, stack: PathStack, top: nat, ghost c0: Ctx, ghost t0: Tree)
    returns (nodes': seq<Cell>, root': int, ghost w: Tree)
    requires 1 <= top < stack.entries.Length
    requires At(nodes, root, stack.entries[..], top + 1, c0, t0) && RedViolation(c0, t0)
    ensures Holds(nodes', root', w) && Distinct(w) && Inorder(w) == Inorder(Fill(c0, t0))
    ensures Balanced(w) && NoRedRed(w)
    ensures Slots(w) == Slots(Fill(c0, t0))
    ensures SameOutside(nodes, nodes', Slots(w))
  {
    var k := top;
    ghost var c, t := c0, t0;
    nodes', root', w := nodes, root, Fill(c, t);
    AtTop(nodes', root', stack.entries[..], k, c, t);
    while nodes'[stack.entries[k].slot].red
      invariant 0 <= k < stack.entries.Length
      invariant c.In? && c.slot < |nodes'| && stack.entries[k].slot == c.slot && nodes'[c.slot].red == c.red
      invariant At(nodes', root', stack.entries[..], k + 1, c, t) && RedViolation(c, t)
      invariant w == Fill(c, t) && Inorder(w) == Inorder(Fill(c0, t0)) && Slots(w) == Slots(Fill(c0, t0))
      invariant SameOutside(nodes, nodes', Slots(w))
      decreases k
    {
      UnderRoot(stack.entries[..], k, c, t);
      Zoom(nodes', root', stack.entries[..], k + 1, c, t);
      var p2, p1, d := stack.entries[k - 1].slot, stack.entries[k].slot, stack.entries[k - 1].left;
      var u := Get(nodes'[p2], !d).to;
      if !Get(nodes'[p2], !d).thread && nodes'[u].red {
        RecolouredOk(c, t);
        ghost var w0 := w;
        nodes' := Recolour(nodes', root', p2, p1, u, c, t);
        c, t := c.up.up, Recoloured(c, t);
        w := Fill(c, t);
        SlotsFromInorder(w0, w);
        if k < 2 {
          break;
        }
        k := k - 2;
        AtTop(nodes', root', stack.entries[..], k, c, t);
      } else {
        RotatedOk(c, t);
        nodes', root' := Rotate(nodes', root', stack, k, c, t);
        w := Fill(c.up.up, Rotated(c, t));
        return;
      }
    }
    FillBalanced(c, t);
    FillNoRedRed(c, t);
  }

  /** The frame on top of the stack. */
  lemma AtTop(nodes: seq<Cell>, root: int, s: seq<Entry>, k: nat, c: Ctx, t: Tree)
    requires k < |s| && At(nodes, root, s, k + 1, c, t)
    ensures c.In? && c.slot == s[k].slot < |nodes| && nodes[c.slot].red == c.red
  {
    HoldsFill(nodes, root, c, t);
  }

  /** A red frame is not the root, so there is a frame above it. */
  lemma UnderRoot(s: seq<Entry>, k: nat, c: Ctx, t: Tree)
    requires k < |s| && OnStack(c, s, k + 1) && RedViolation(c, t) && CtxRed(c)
    ensures k >= 1 && c.up.In? && !c.up.red
  {
  }

  /** A red leaf in the hole: the only thing that can be wrong is a red parent. */
  lemma AttachedViolation(c: Ctx, index: nat)
    requires c.In? && RedBlack(Fill(c, Nil))
    ensures RedViolation(c, RedLeaf(index))
    ensures c.up.Top? ==> Balanced(Fill(c, RedLeaf(index))) && NoRedRed(Fill(c, RedLeaf(index)))
  {
    FillBalanced(c, Nil);
    FillNoRedRed(c, Nil);
    FillRootBlack(c, Nil);
    FillBalanced(c, RedLeaf(index));
    FillNoRedRed(c, RedLeaf(index));
  }

  /** The cached ends and the count after the new slot went in next to `where`. */
  lemma AttachedAgrees(r: TreeRoot, c: Ctx, index: nat)
    requires c.In? && Agrees(r, Inorder(Fill(c, Nil))) && Distinct(Fill(c, Nil))
    ensures var r1 := r.IncreaseCount();
            var r2 := if c.left then r1.UpdateLeft(c.slot, index) else r1.UpdateRight(c.slot, index);
            Agrees(r2, Inorder(Fill(c, RedLeaf(index))))
    ensures Inorder(Fill(c, RedLeaf(index))) == Before(c) + [index] + After(c)
    ensures Slots(Fill(c, RedLeaf(index))) == CtxSlots(c) + {index}
  {
    FillInorder(c, Nil);
    FillInorder(c, RedLeaf(index));
    FillSlots(c, RedLeaf(index));
    DistinctInorder(Fill(c, Nil));
    var s := Before(c) + After(c);
    assert Inorder(Fill(c, Nil)) == s;
    LoHi(c);
    if c.left {
      assert s[|Before(c)|] == After(c)[0] == c.slot;
    } else {
      assert s[|Before(c)| - 1] == Before(c)[|Before(c)| - 1] == c.slot;
    }
  }

  /** The first node of a tree. */
  method InsertFirst(root: TreeRoot, nodes: seq<Cell>, index: nat) returns (root': TreeRoot, nodes': seq<Cell>)
    requires index < |nodes| && (root.counted ==> root.count == 1)
    ensures IsTree(nodes', root', Bin(Nil, index, false, Nil))
    ensures SameOutside(nodes, nodes', {index})
    ensures root'.counted == root.counted && root'.ends == root.ends
  {
    nodes' := SetEmpty(nodes, index, false);
    nodes' := SetThread(nodes', index, true, true);
    nodes' := SetThread(nodes', index, false, true);
    nodes' := SetLink(nodes', index, true, NIL);
    nodes' := SetLink(nodes', index, false, NIL);
    nodes' := SetRed(nodes', index, false);
    root' := root.(root := index).SetEnds(index, index);
    SingletonIsTree(nodes', root', index);
  }

  lemma SingletonIsTree(nodes: seq<Cell>, root: TreeRoot, index: nat)
    requires index < |nodes| && nodes[index] == Cell(Link(true, NIL), Link(true, NIL), false, false)
    requires root.root == index && (root.counted ==> root.count == 1) && (root.ends ==>
        root.left == root.right == index)
    ensures IsTree(nodes, root, Bin(Nil, index, false, Nil))
  {
    var t := Bin(Nil, index, false, Nil);
    assert Inorder(t) == [index];
    assert Rep(nodes, t.left, NIL, index) && Rep(nodes, t.right, index, NIL);
    assert Balanced(t.left) && NoRedRed(t.left);
  }

  /** A new leaf below the node on top of the stack, then rebalancing. */
  method InsertBelow(root: TreeRoot, nodes: seq<Cell>, stack: PathStack, index: nat, ghost c: Ctx)
    returns (root': TreeRoot, nodes': seq<Cell>, ghost t: Tree)
    requires 0 < stack.height <= stack.entries.Length && OnStack(c, stack.entries[..], stack.height)
    requires IsTree(nodes, root, Fill(c, Nil))
    requires index < |nodes| && index !in CtxSlots(c)
    ensures IsTree(nodes', root', t)
    ensures Inorder(t) == Before(c) + [index] + After(c)
    ensures SameOutside(nodes, nodes', CtxSlots(c) + {index})
    ensures root'.counted == root.counted && root'.ends == root.ends
  {
    var k := stack.height - 1;
    var where, left := stack.entries[k].slot, stack.entries[k].left;
    HoldsFill(nodes, root.root, c, Nil);
    nodes' := Attach(nodes, where, left, index);
    root' := root.IncreaseCount();
    root' := if left then root'.UpdateLeft(where, index) else root'.UpdateRight(where, index);
    t := Fill(c, RedLeaf(index));
    AttachedHolds(nodes, nodes', root.root, c, index);
    AttachedViolation(c, index);
    AttachedAgrees(root, c, index);
    if k >= 1 {
      var r;
      nodes', r, t := FixUp(nodes', root'.root, stack, k, c, RedLeaf(index));
      root' := root'.(root := r);
    }
    nodes', t := BlackenRoot(nodes', root'.root, t);
  }

  /** Inserts slot `index` in the hole that the path on the stack leads to. */
  method Insert(root: TreeRoot, nodes: seq<Cell>, stack: PathStack, index: nat, ghost c: Ctx)
    returns (root': TreeRoot, nodes': seq<Cell>, ghost t: Tree)
    requires stack.height <= stack.entries.Length && OnStack(c, stack.entries[..], stack.height)
    requires IsTree(nodes, root, Fill(c, Nil))
    requires index < |nodes| && index !in CtxSlots(c)
    ensures IsTree(nodes', root', t)
    ensures Inorder(t) == Before(c) + [index] + After(c)
    ensures SameOutside(nodes, nodes', CtxSlots(c) + {index})
    ensures root'.counted == root.counted && root'.ends == root.ends
  {
    if stack.height == 0 {
      root', nodes' := InsertFirst(root.IncreaseCount(), nodes, index);
      t := Bin(Nil, index, false, Nil);
    } else {
      root', nodes', t := InsertBelow(root, nodes, stack, index, c);
    }
  }
}
