/** Taking a node out of the tree before rebalancing: the first half of `threaded_rbtree_remove`.

    The node `p` is the root of `Bin(a, p, red, b)` in the context `c`.  If `b` is absent, `a` takes
    the place of `p`.  Otherwise the least node `s` of `b` does, with the colour of `p`. */
module Splicing {
  import opened Shape
  import opened Threads
  import opened PathStacks
  import opened Rotation
  import opened RemovalBalance

  function MaxSlot(t: Tree): nat
    requires t.Bin?
  {
    if t.right.Nil? then t.slot else MaxSlot(t.right)
  }

  lemma {:induction false} MaxSlotIn(t: Tree)
    requires t.Bin?
    ensures MaxSlot(t) in Slots(t)
  {
    if t.right.Nil? {
    } else {
      MaxSlotIn(t.right);
    }
  }

  /** Redirecting the last thread of a tree changes its right neighbour and nothing else. */
  lemma {:induction false} RethreadRep(nodes: seq<Cell>, t: Tree, lo: int, hi: int, target: int)
    requires t.Bin? && Rep(nodes, t, lo, hi) && Distinct(t)
    ensures MaxSlot(t) < |nodes| && Rep(SetLink(nodes, MaxSlot(t), false, target), t, lo, target)
    decreases t
  {
    MaxSlotIn(t);
    RepInPool(nodes, t, lo, hi);
    var nodes' := SetLink(nodes, MaxSlot(t), false, target);
    if t.right.Nil? {
    } else {
      MaxSlotIn(t.right);
      RethreadRep(nodes, t.right, t.slot, hi, target);
    }
    RepFrame(nodes, nodes', t.left, lo, t.slot);
  }

  /** Walks to the last node of the subtree at `from` and makes its thread lead to `target`. */
  method Rethread(nodes: seq<Cell>, from: nat, target: int, ghost t: Tree, ghost lo: int, ghost hi: int)
    returns (nodes': seq<Cell>)
    requires t.Bin? && from == t.slot && Rep(nodes, t, lo, hi) && Distinct(t)
    ensures Rep(nodes', t, lo, target)
    ensures SameOutside(nodes, nodes', Slots(t))
  {
    var last := from;
    ghost var v, l := t, lo;
    while !nodes[last].right.thread
      invariant v.Bin? && last == v.slot && last < |nodes| && Rep(nodes, v, l, hi) && MaxSlot(v) == MaxSlot(t)
      decreases v
    {
      last := nodes[last].right.to;
      l := v.slot;
      v := v.right;
    }
    RethreadRep(nodes, t, lo, hi, target);
    MaxSlotIn(t);
    nodes' := SetLink(nodes, last, false, target);
  }

  // ---- The tree after the splice.

  /** The frame of the node that takes the place of `p`. */
  function Replaced(c: Ctx, t: Tree): Ctx
    requires t.Bin? && t.right.Bin?
  {
    In(c, LeftMost(t.right).slot, t.red, false, t.left)
  }

  /** The context of the gap that the moved node leaves. */
  function GapCtx(c: Ctx, t: Tree): Ctx
    requires t.Bin?
  {
    if t.right.Nil? then c else LeftCtx(Replaced(c, t), t.right)
  }

  /** What falls into the gap. */
  function GapTree(t: Tree): Tree
    requires t.Bin?
  {
    if t.right.Nil? then t.left else LeftMost(t.right).right
  }

  /** The colour that goes away. */
  function GapRed(t: Tree): bool
    requires t.Bin?
  {
    if t.right.Nil? then t.red else LeftMost(t.right).red
  }

  function Spliced(t: Tree): Tree
    requires t.Bin?
  {
    if t.right.Nil? then t.left else Bin(t.left, LeftMost(t.right).slot, t.red, WithoutMin(t.right))
  }

  lemma SplicedFill(c: Ctx, t: Tree)
    requires t.Bin?
    ensures Fill(GapCtx(c, t), GapTree(t)) == Fill(c, Spliced(t))
  {
    if t.right.Bin? { LeftFill(Replaced(c, t), t.right); }
  }

  lemma Regroup(a: seq<nat>, b: seq<nat>, i: nat, c: seq<nat>, d: seq<nat>)
    ensures a + (b + [i] + c) + d == (a + b) + [i] + (c + d)
    ensures a + (b + c) + d == (a + b) + (c + d)
    ensures b + [i] + c == b + ([i] + c)
  {
  }

  lemma SplicedInorder(c: Ctx, t: Tree)
    requires t.Bin?
    ensures Inorder(Fill(c, t)) == (Before(c) + Inorder(t.left)) + [t.slot] + (Inorder(t.right) + After(c))
    ensures Inorder(Fill(c, Spliced(t))) == (Before(c) + Inorder(t.left)) + (Inorder(t.right) + After(c))
    ensures Height(Fill(c, Spliced(t))) <= Height(Fill(c, t))
  {
    var l, r := Inorder(t.left), Inorder(t.right);
    assert Inorder(Spliced(t)) == l + r && Height(Spliced(t)) <= Height(t) by {
      if t.right.Bin? {
        MinInorder(t.right);
        Regroup([], l, LeftMost(t.right).slot, Inorder(WithoutMin(t.right)), []);
      }
    }
    FillInorder(c, t);
    FillInorder(c, Spliced(t));
    Regroup(Before(c), l, t.slot, r, After(c));
    FillHeightMono(c, Spliced(t), t);
  }

  lemma WithoutOne(x: seq<nat>, i: nat, y: seq<nat>)
    requires NoDuplicates(x + [i] + y)
    ensures NoDuplicates(x + y)
    ensures forall j :: j in x + y <==> j in x + [i] + y && j != i
  {
    NoDuplicatesSplit(x + [i], y);
    NoDuplicatesSplit(x, [i]);
    assert i in x + [i];
    NoDuplicatesConcat(x, y);
  }

  /** Exactly the slot of `p` is gone. */
  lemma SplicedOrder(c: Ctx, t: Tree)
    requires t.Bin? && Distinct(Fill(c, t))
    ensures var u := Fill(c, Spliced(t));
            Distinct(u) && Slots(u) == Slots(Fill(c, t)) - {t.slot}
  {
    var u := Fill(c, Spliced(t));
    SplicedInorder(c, t);
    DistinctInorder(Fill(c, t));
    WithoutOne(Before(c) + Inorder(t.left), t.slot, Inorder(t.right) + After(c));
    InorderDistinct(u);
    SlotsAreInorder(u);
    SlotsAreInorder(Fill(c, t));
  }

  /** A red gap costs nothing; a black one leaves a deficit. */
  lemma SplicedBalance(c: Ctx, t: Tree)
    requires t.Bin? && RedBlack(Fill(c, t))
    ensures GapRed(t) ==> RedBlack(Fill(c, Spliced(t)))
    ensures !GapRed(t) ==> Deficit(GapCtx(c, t), GapTree(t))
  {
    var g, e := GapCtx(c, t), GapTree(t);
    SplicedFill(c, t);
    FillBalanced(c, t);
    FillNoRedRed(c, t);
    FillBalanced(g, e);
    FillNoRedRed(g, e);
    if t.right.Bin? {
      var f := Replaced(c, t);
      assert CtxBalanced(f, BlackHeight(t.right)) && CtxNoRedRed(f);
      FillBalanced(f, t.right);
      FillNoRedRed(f, t.right);
      LeftFill(f, t.right);
      FillBalanced(g, LeftMost(t.right));
      FillNoRedRed(g, LeftMost(t.right));
    }
    if c.In? {
      FillRootBlack(c, t);
      FillRootBlack(c, Spliced(t));
    }
  }

  // ---- Memory.

  /** The tree around `p`, whatever the used-flag of `p` says. */
  ghost predicate Opened(nodes: seq<Cell>, root: int, c: Ctx, t: Tree) {
    && t.Bin? && t.slot < |nodes|
    && nodes[t.slot].left == LinkTo(SlotOf(t.left), Lo(c))
    && nodes[t.slot].right == LinkTo(SlotOf(t.right), Hi(c))
    && nodes[t.slot].red == t.red
    && RepCtx(nodes, root, c, t.slot)
    && Rep(nodes, t.left, Lo(c), t.slot) && Rep(nodes, t.right, t.slot, Hi(c))
  }

  lemma HoldsOpened(nodes: seq<Cell>, root: int, c: Ctx, t: Tree)
    requires t.Bin? && Holds(nodes, root, Fill(c, t)) && Distinct(Fill(c, t))
    ensures t.slot < |nodes| && Opened(SetEmpty(nodes, t.slot, true), root, c, t)
  {
    HoldsFill(nodes, root, c, t);
    FillDistinct(c, t);
    var nodes' := SetEmpty(nodes, t.slot, true);
    RepCtxFrame(nodes, nodes', root, c, t.slot);
    RepFrame(nodes, nodes', t.left, Lo(c), t.slot);
    RepFrame(nodes, nodes', t.right, t.slot, Hi(c));
  }

  /** The places at play are all different. */
  lemma OpenedApart(c: Ctx, t: Tree)
    requires t.Bin? && Distinct(Fill(c, t))
    ensures Slots(t.left) !! CtxSlots(c) && Slots(t.right) !! CtxSlots(c) && t.slot !in CtxSlots(c)
    ensures Slots(t.left) !! Slots(t.right) && t.slot !in Slots(t.left) && t.slot !in Slots(t.right)
    ensures Distinct(t.left) && Distinct(t.right) && CtxRest(c) <= CtxSlots(c)
    ensures c.In? ==> c.slot in CtxSlots(c) && c.slot !in CtxRest(c)
    ensures CtxSlots(c) + {t.slot} + Slots(t.left) + Slots(t.right) == Slots(Fill(c, t))
  {
    FillDistinct(c, t);
    FillSlots(c, t);
  }

  /** No children: the link from above becomes a thread. */
  method SpliceLeaf(nodes: seq<Cell>, root: int, stack: PathStack, k: nat, p: nat, ghost c: Ctx, ghost t: Tree)
    returns (nodes': seq<Cell>, root': int)
    requires Opened(nodes, root, c, t) && Distinct(Fill(c, t)) && p == t.slot && t.left.Nil? && t.right.Nil?
    requires k <= stack.entries.Length && OnStack(c, stack.entries[..], k)
    ensures Holds(nodes', root', Fill(c, Spliced(t)))
    ensures SameOutside(nodes, nodes', CtxSlots(c))
  {
    OpenedApart(c, t);
    nodes', root' := nodes, root;
    if k == 0 {
      root' := nodes'[p].left.to;
    } else if stack.entries[k - 1].left {
      nodes' := SetLink(nodes', stack.entries[k - 1].slot, true, nodes'[p].left.to);
      nodes' := SetThread(nodes', stack.entries[k - 1].slot, true, true);
    } else {
      nodes' := SetLink(nodes', stack.entries[k - 1].slot, false, nodes'[p].right.to);
      nodes' := SetThread(nodes', stack.entries[k - 1].slot, false, true);
    }
    Graft(nodes, nodes', root, root', c, t.slot, Nil);
  }

  /** Only a left subtree: it moves up, and its last thread leads past `p`. */
  method SpliceLeft(nodes: seq<Cell>, root: int, stack: PathStack, k: nat, p: nat, ghost c: Ctx, ghost t: Tree)
    returns (nodes': seq<Cell>, root': int)
    requires Opened(nodes, root, c, t) && Distinct(Fill(c, t)) && p == t.slot && t.left.Bin? && t.right.Nil?
    requires k <= stack.entries.Length && OnStack(c, stack.entries[..], k)
    ensures Holds(nodes', root', Fill(c, Spliced(t)))
    ensures SameOutside(nodes, nodes', CtxSlots(c) + Slots(t.left))
  {
    OpenedApart(c, t);
    var a := nodes[p].left.to;
    nodes' := Rethread(nodes, a, nodes[p].right.to, t.left, Lo(c), p);
    ghost var mid := nodes';
    nodes', root' := Relink(nodes', root, stack, k, a);
    RepFrame(mid, nodes', t.left, Lo(c), Hi(c));
    if c.In? { Repointed(nodes, root, c, p, a); }
    Graft(nodes, nodes', root, root', c, t.slot, t.left);
  }

  /** The left subtree of `p` goes to the node `s`: its last thread now leads to `s`. */
  method MoveLeft(nodes: seq<Cell>, p: nat, s: nat, ghost a: Tree, ghost lo: int)
    returns (nodes': seq<Cell>)
    requires p < |nodes| && s < |nodes| && p != s && s !in Slots(a) && p !in Slots(a) && Distinct(a)
    requires Rep(nodes, a, lo, p) && nodes[p].left == LinkTo(SlotOf(a), lo)
    requires nodes[s].left.thread
    ensures Rep(nodes', a, lo, s) && |nodes'| == |nodes|
    ensures nodes'[s] == nodes[s].(left := LinkTo(SlotOf(a), lo))
    ensures SameOutside(nodes, nodes', Slots(a) + {s})
  {
    nodes' := SetLink(nodes, s, true, nodes[p].left.to);
    RepFrame(nodes, nodes', a, lo, p);
    if !nodes'[p].left.thread {
      nodes' := SetThread(nodes', s, true, false);
      RepFrame(nodes, nodes', a, lo, p);
      nodes' := Rethread(nodes', nodes'[p].left.to, s, a, lo, p);
    }
  }

  /** The link from above moves from `p` to `s`, and the two exchange their colours. */
  method TakePlace(nodes: seq<Cell>, root: int, stack: PathStack, k: nat, p: nat, s: nat, ghost c: Ctx)
    returns (nodes': seq<Cell>, root': int)
    requires p < |nodes| && s < |nodes| && p != s && (c.In? ==> c.slot != p && c.slot != s)
    requires k <= stack.entries.Length && OnStack(c, stack.entries[..], k)
    requires PointsAt(nodes, root, c, p)
    ensures PointsAt(nodes', root', c, s) && (c.In? ==> root' == root)
    ensures |nodes'| == |nodes|
    ensures nodes'[p] == nodes[p].(red := nodes[s].red) && nodes'[s] == nodes[s].(red := nodes[p].red)
    ensures SameOutside(nodes, nodes', {p, s} + if c.In? then {c.slot} else {})
  {
    nodes', root' := Relink(nodes, root, stack, k, s);
    var red := nodes'[s].red;
    nodes' := SetRed(nodes', s, nodes'[p].red);
    nodes' := SetRed(nodes', p, red);
    if c.In? { Repointed(nodes, root, c, p, s); }
  }

  /** The node `s` stands in the place of `p`: its cell, its left subtree and the link from above are right. */
  lemma Seated(nodes: seq<Cell>, nodes': seq<Cell>, root: int, root': int, c: Ctx, t: Tree, b: Tree)
    requires Opened(nodes, root, c, t) && t.right.Bin?
    requires var s := LeftMost(t.right).slot;
             && s < |nodes'| && nodes'[s] == Cell(LinkTo(SlotOf(t.left), Lo(c)), LinkTo(SlotOf(b), Hi(c)), t.red, false)
             && Rep(nodes', t.left, Lo(c), s) && Rep(nodes', b, s, Hi(c))
             && PointsAt(nodes', root', c, s) && (c.In? ==> root' == root)
    requires SameOn(nodes, nodes', CtxRest(c))
    ensures Holds(nodes', root', Fill(c, Bin(t.left, LeftMost(t.right).slot, t.red, b)))
  {
    Graft(nodes, nodes', root, root', c, t.slot, Bin(t.left, LeftMost(t.right).slot, t.red, b));
  }

  /** The right child has no left child: it is the successor and moves up one step. */
  method SpliceRight(nodes: seq<Cell>, root: int, stack: PathStack, k: nat, p: nat, r: nat, ghost c: Ctx, ghost t: Tree)
    returns (nodes': seq<Cell>, root': int)
    requires Opened(nodes, root, c, t) && Distinct(Fill(c, t)) && p == t.slot
    requires t.right.Bin? && t.right.left.Nil? && r == t.right.slot
    requires k <= stack.entries.Length && OnStack(c, stack.entries[..], k)
    ensures Holds(nodes', root', Fill(c, Spliced(t)))
    ensures SameOutside(nodes, nodes', Slots(Fill(c, t)))
    ensures |nodes'| == |nodes| && nodes'[p] == nodes[p].(red := GapRed(t))
  {
    OpenedApart(c, t);
    ghost var b := t.right;
    nodes' := MoveLeft(nodes, p, r, t.left, Lo(c));
    ghost var n1 := nodes';
    nodes', root' := TakePlace(nodes', root, stack, k, p, r, c);
    RepFrame(n1, nodes', t.left, Lo(c), r);
    RepFrame(nodes, nodes', b.right, r, Hi(c));
    Seated(nodes, nodes', root, root', c, t, b.right);
  }

  // ---- The successor is further down.

  /** The parent of the least node. */
  function MinParent(t: Tree): nat
    requires t.Bin? && t.left.Bin?
  {
    if t.left.left.Nil? then t.slot else MinParent(t.left)
  }

  lemma {:induction false} MinSlots(t: Tree)
    requires t.Bin? && t.left.Bin? && Distinct(t)
    ensures MinParent(t) in Slots(t) && LeftMost(t).slot in Slots(t) && MinParent(t) != LeftMost(t).slot
    ensures Slots(LeftMost(t).right) <= Slots(t) && MinParent(t) !in Slots(LeftMost(t).right) &&
        LeftMost(t).slot !in Slots(LeftMost(t).right)
    ensures LeftMost(t).slot != t.slot
  {
    if t.left.left.Nil? {
    } else {
      MinSlots(t.left);
    }
  }

  /** The cell of the least node, and of its parent. */
  lemma {:induction false} MinCells(nodes: seq<Cell>, t: Tree, lo: int, hi: int)
    requires t.Bin? && t.left.Bin? && Rep(nodes, t, lo, hi)
    ensures var s, r, e := LeftMost(t).slot, MinParent(t), LeftMost(t).right;
            && s < |nodes| && r < |nodes|
            && nodes[s] == Cell(Link(true, lo), LinkTo(SlotOf(e), r), LeftMost(t).red, false)
            && nodes[r].left == Link(false, s)
    decreases t
  {
    if t.left.left.Nil? {
    } else {
      MinCells(nodes, t.left, lo, t.slot);
    }
  }

  /** Without its least node, once the parent's left link skips it. */
  lemma {:induction false} WithoutMinRep(nodes: seq<Cell>, nodes': seq<Cell>, t: Tree, lo: int, hi: int)
    requires t.Bin? && t.left.Bin? && Rep(nodes, t, lo, hi) && Distinct(t)
    requires MinParent(t) < |nodes| == |nodes'|
    requires nodes'[MinParent(t)] == nodes[MinParent(t)].(left := LinkTo(SlotOf(LeftMost(t).right), LeftMost(t).slot))
    requires SameOn(nodes, nodes', Slots(t) - {MinParent(t), LeftMost(t).slot})
    ensures Rep(nodes', WithoutMin(t), LeftMost(t).slot, hi)
    decreases t
  {
    MinSlots(t);
    var s := LeftMost(t).slot;
    if t.left.left.Nil? {
      RepFrame(nodes, nodes', t.left.right, s, t.slot);
    } else {
      MinSlots(t.left);
      WithoutMinRep(nodes, nodes', t.left, lo, t.slot);
    }
    RepFrame(nodes, nodes', t.right, t.slot, hi);
  }

  lemma {:induction false} OnStackBase(c: Ctx, t: Tree, s: seq<Entry>, n: nat)
    requires t.Bin? && n <= |s| && OnStack(LeftCtx(c, t), s, n)
    ensures Depth(c) <= n && OnStack(c, s, Depth(c))
    decreases t
  {
    OnStackDepth(LeftCtx(c, t), s, n);
    if t.left.Nil? {
    } else {
      OnStackBase(In(c, t.slot, t.red, true, t.right), t.left, s, n);
    }
  }

  /** Exchanging the base of a left path on the stack. */
  lemma {:induction false} OnStackRebase(c: Ctx, c': Ctx, t: Tree, s: seq<Entry>, s': seq<Entry>, n: nat)
    requires t.Bin? && n <= |s| == |s'| && OnStack(LeftCtx(c, t), s, n)
    requires Depth(c) <= n && OnStack(c', s', Depth(c))
    requires forall i :: Depth(c) <= i < n ==> s'[i] == s[i]
    ensures OnStack(LeftCtx(c', t), s', n)
    decreases t
  {
    if t.left.Bin? {
      var d, d' := In(c, t.slot, t.red, true, t.right), In(c', t.slot, t.red, true, t.right);
      OnStackBase(d, t.left, s, n);
      OnStackRebase(d, d', t.left, s, s', n);
    } else {
      OnStackDepth(c, s, n);
    }
  }

  /** Each step to the left is one entry. */
  lemma {:induction false} LeftDepth(c: Ctx, t: Tree)
    requires t.Bin?
    ensures Depth(LeftCtx(c, t)) == Depth(c) + LeftSteps(t)
    decreases t
  {
    if t.left.Nil? {
    } else {
      LeftDepth(In(c, t.slot, t.red, true, t.right), t.left);
    }
  }

  /** The number of steps to the least node. */
  function LeftSteps(t: Tree): nat {
    if t.Nil? || t.left.Nil? then 0 else 1 + LeftSteps(t.left)
  }

  /** Walks down the left side of the right subtree of `p`, pushing the nodes passed. */
  method DescendLeft(nodes: seq<Cell>, stack: PathStack, k0: nat, r0: nat, ghost c: Ctx, ghost t: Tree,
      ghost lo: int, ghost hi: int)
    returns (k: nat, r: nat, s: nat)
    requires t.Bin? && t.left.Bin? && r0 == t.slot && Rep(nodes, t, lo, hi)
    requires k0 <= stack.entries.Length && OnStack(c, stack.entries[..], k0)
    requires Depth(LeftCtx(c, t)) <= stack.entries.Length
    modifies stack`reach, stack.entries
    ensures k <= stack.entries.Length && OnStack(LeftCtx(c, t), stack.entries[..], k)
    ensures stack.reach == Max(old(stack.reach), k)
    ensures r == MinParent(t) && s == LeftMost(t).slot
    ensures forall i :: 0 <= i < k0 ==> stack.entries[i] == old(stack.entries[i])
  {
    k, r := k0, r0;
    ghost var d, v, h := c, t, hi;
    while true
      invariant v.Bin? && v.left.Bin? && r == v.slot && Rep(nodes, v, lo, h)
      invariant k0 <= k <= stack.entries.Length && OnStack(d, stack.entries[..], k)
      invariant Fill(d, v) == Fill(c, t) && LeftCtx(d, v) == LeftCtx(c, t)
      invariant LeftMost(v) == LeftMost(t) && MinParent(v) == MinParent(t)
      invariant forall i :: 0 <= i < k0 ==> stack.entries[i] == old(stack.entries[i])
      invariant stack.reach == if k == k0 then old(stack.reach) else Max(old(stack.reach), k)
      decreases v
    {
      LeftDepth(d, v);
      OnStackDepth(d, stack.entries[..], k);
      ghost var before := stack.entries[..];
      stack.UpdateIndex(k, r, true);
      OnStackFrame(d, before, stack.entries[..], k);
      k := k + 1;
      s := nodes[r].left.to;
      d := In(d, v.slot, v.red, true, v.right);
      if nodes[s].left.thread {
        break;
      }
      r := s;
      h := v.slot;
      v := v.left;
    }
  }

  /** The link from `r` to the least node `s` passes to what `s` leaves behind. */
  method SkipMin(nodes: seq<Cell>, r: nat, s: nat, ghost e: int) returns (nodes': seq<Cell>)
    requires r < |nodes| && s < |nodes| && r != s
    requires nodes[r].left == Link(false, s) && nodes[s].right == LinkTo(e, r)
    ensures nodes' == nodes[r := nodes[r].(left := LinkTo(e, s))]
  {
    if !nodes[s].right.thread {
      nodes' := SetLink(nodes, r, true, nodes[s].right.to);
    } else {
      nodes' := SetThread(nodes, r, true, true);
    }
  }

  /** The rest of the deep splice, cell by cell: `s` takes the subtrees, the place and the colour of `p`. */
  method MoveUp(nodes: seq<Cell>, root: int, stack: PathStack, k: nat, p: nat, r: nat, s: nat,
                ghost c: Ctx, ghost a: Tree, ghost lo: int, ghost e: int)
    returns (nodes': seq<Cell>, root': int)
    requires p < |nodes| && r < |nodes| && s < |nodes| && p != r && p != s && r != s
    requires {p, r, s} !! Slots(a) && Distinct(a) && Rep(nodes, a, lo, p)
    requires c.In? ==> c.slot !in {p, r, s} + Slots(a)
    requires nodes[p].left == LinkTo(SlotOf(a), lo) && !nodes[p].right.thread
    requires nodes[s].left.thread && nodes[s].right == LinkTo(e, r) && nodes[r].left == Link(false, s)
    requires k <= stack.entries.Length && OnStack(c, stack.entries[..], k) && PointsAt(nodes, root, c, p)
    ensures |nodes'| == |nodes|
    ensures nodes'[s] == Cell(LinkTo(SlotOf(a), lo), nodes[p].right, nodes[p].red, nodes[s].empty)
    ensures nodes'[r] == nodes[r].(left := LinkTo(e, s))
    ensures nodes'[p] == nodes[p].(red := nodes[s].red)
    ensures Rep(nodes', a, lo, s)
    ensures PointsAt(nodes', root', c, s) && (c.In? ==> root' == root)
    ensures SameOutside(nodes, nodes', {p, s, r} + Slots(a) + if c.In? then {c.slot} else {})
  {
    nodes' := SkipMin(nodes, r, s, e);
    RepFrame(nodes, nodes', a, lo, p);
    nodes' := MoveLeft(nodes', p, s, a, lo);
    ghost var n1 := nodes';
    nodes' := SetLink(nodes', s, false, nodes'[p].right.to);
    nodes' := SetThread(nodes', s, false, false);
    nodes', root' := TakePlace(nodes', root, stack, k, p, s, c);
    RepFrame(n1, nodes', a, lo, s);
  }

  /** The successor is the least node `s` of the right subtree, below its root `r0`. */
  method SpliceDeep(nodes: seq<Cell>, root: int, stack: PathStack, j: nat, p: nat, r0: nat, ghost c: Ctx, ghost t: Tree)
    returns (nodes': seq<Cell>, root': int, k: nat)
    requires Opened(nodes, root, c, t) && Distinct(Fill(c, t)) && p == t.slot
    requires t.right.Bin? && t.right.left.Bin? && r0 == t.right.slot
    requires j < stack.entries.Length && OnStack(c, stack.entries[..], j) && stack.entries[j] == Entry(p, false)
    requires Depth(GapCtx(c, t)) <= stack.entries.Length && j < stack.reach
    modifies stack`reach, stack.entries
    ensures stack.reach == Max(old(stack.reach), Depth(GapCtx(c, t)))
    ensures Holds(nodes', root', Fill(c, Spliced(t)))
    ensures SameOutside(nodes, nodes', Slots(Fill(c, t)))
    ensures |nodes'| == |nodes| && nodes'[p] == nodes[p].(red := GapRed(t))
    ensures k <= stack.entries.Length && OnStack(GapCtx(c, t), stack.entries[..], k)
  {
    ghost var f := In(c, p, t.red, false, t.left);
    ghost var s0 := stack.entries[..];
    OnStackDepth(c, s0, j);
    LeftDepth(f, t.right);
    LeftDepth(Replaced(c, t), t.right);
    var r, s;
    k, r, s := DescendLeft(nodes, stack, j + 1, r0, f, t.right, p, Hi(c));
    ghost var s1 := stack.entries[..];
    stack.UpdateIndex(j, s, false);
    OnStackFrame(c, s0, stack.entries[..], j);
    OnStackDepth(LeftCtx(f, t.right), s1, k);
    OnStackBase(f, t.right, s1, k);
    OnStackRebase(f, Replaced(c, t), t.right, s1, stack.entries[..], k);
    OpenedApart(c, t);
    MinSlots(t.right);
    MinCells(nodes, t.right, p, Hi(c));
    nodes', root' := MoveUp(nodes, root, stack, j, p, r, s, c, t.left, Lo(c), SlotOf(LeftMost(t.right).right));
    SplicedDeepHolds(nodes, nodes', root, root', c, t);
  }

  lemma SplicedDeepHolds(nodes: seq<Cell>, nodes': seq<Cell>, root: int, root': int, c: Ctx, t: Tree)
    requires Opened(nodes, root, c, t) && Distinct(Fill(c, t)) && t.right.Bin? && t.right.left.Bin?
    requires var s, r := LeftMost(t.right).slot, MinParent(t.right);
             && |nodes'| == |nodes| && s < |nodes| && r < |nodes|
             && nodes'[s] == Cell(LinkTo(SlotOf(t.left), Lo(c)), Link(false, t.right.slot), t.red, false)
             && nodes'[r] == nodes[r].(left := LinkTo(SlotOf(LeftMost(t.right).right), s))
             && Rep(nodes', t.left, Lo(c), s)
             && PointsAt(nodes', root', c, s) && (c.In? ==> root' == root)
             && SameOutside(nodes, nodes', {t.slot, s, r} + Slots(t.left) + if c.In? then {c.slot} else {})
    ensures Holds(nodes', root', Fill(c, Spliced(t)))
    ensures SameOutside(nodes, nodes', Slots(Fill(c, t)))
  {
    OpenedApart(c, t);
    MinSlots(t.right);
    WithoutMinRep(nodes, nodes', t.right, t.slot, Hi(c));
    Seated(nodes, nodes', root, root', c, t, WithoutMin(t.right));
  }

  /** Takes the node on top of the stack out of the tree; `k` is where rebalancing starts. */
  method Splice(nodes: seq<Cell>, root: int, stack: PathStack, j: nat, ghost c: Ctx, ghost t: Tree)
    returns (nodes': seq<Cell>, root': int, k: nat)
    requires Opened(nodes, root, c, t) && Distinct(Fill(c, t))
    requires j < stack.entries.Length && OnStack(c, stack.entries[..], j) && stack.entries[j] == Entry(t.slot, false)
    requires Depth(GapCtx(c, t)) <= stack.entries.Length && j < stack.reach
    modifies stack`reach, stack.entries
    ensures stack.reach == Max(old(stack.reach), Depth(GapCtx(c, t)))
    ensures At(nodes', root', stack.entries[..], k, GapCtx(c, t), GapTree(t))
    ensures SameOutside(nodes, nodes', Slots(Fill(c, t)))
    ensures |nodes'| == |nodes| && nodes'[t.slot] == nodes[t.slot].(red := GapRed(t))
  {
    SplicedFill(c, t);
    SplicedOrder(c, t);
    OpenedApart(c, t);
    OnStackDepth(c, stack.entries[..], j);
    k := j;
    var p := stack.entries[j].slot;
    if nodes[p].right.thread {
      if !nodes[p].left.thread {
        nodes', root' := SpliceLeft(nodes, root, stack, j, p, c, t);
      } else {
        nodes', root' := SpliceLeaf(nodes, root, stack, j, p, c, t);
      }
    } else {
      var r := nodes[p].right.to;
      if nodes[r].left.thread {
        nodes', root' := SpliceRight(nodes, root, stack, j, p, r, c, t);
        ghost var s := stack.entries[..];
        stack.UpdateIndex(j, r, false);
        OnStackFrame(c, s, stack.entries[..], j);
        k := j + 1;
      } else {
        nodes', root', k := SpliceDeep(nodes, root, stack, j, p, r, c, t);
      }
    }
  }
}
