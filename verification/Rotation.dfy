/** The link surgery shared by insertion and removal. */
module Rotation {
  import opened Shape
  import opened Threads
  import opened PathStacks

  // ---- Cell by cell.

  /** The link by which a node takes over the subtree that its rising child `y` gives up. */
  function Inherited(l: Link, y: nat): Link {
    if l.thread then Link(true, y) else l
  }

  /** The cells of `p` and of its child `y` on side `d`, once `y` has risen above `p`. */
  ghost predicate Risen(nodes: seq<Cell>, nodes': seq<Cell>, p: nat, y: nat, d: bool)
    requires p < |nodes| == |nodes'| && y < |nodes|
  {
    && nodes'[p] == WithLink(nodes[p], d, Inherited(Get(nodes[y], !d), y))
    && nodes'[y] == WithLink(nodes[y], !d, Link(false, p))
  }

  /** The path entry above the rotation names a cell of the pool that the rotation does not move. */
  predicate Apart(nodes: seq<Cell>, e: Entry, p: nat, y: nat) {
    e.slot < |nodes| && e.slot != p && e.slot != y
  }

  /** Points the node at `k - 1` on the path, or the root if `k` is 0, at the child `y`. */
  method Relink(nodes: seq<Cell>, root: int, stack: PathStack, k: nat, y: nat)
    returns (nodes': seq<Cell>, root': int)
    requires k <= stack.entries.Length && (k > 0 ==> stack.entries[k - 1].slot < |nodes|)
    ensures k == 0 ==> nodes' == nodes && root' == y
    ensures k > 0 ==> root' == root && nodes' == SetLink(nodes, stack.entries[k - 1].slot, stack.entries[k - 1].left, y)
  {
    nodes', root' := nodes, root;
    if k == 0 {
      root' := y;
    } else if stack.entries[k - 1].left {
      nodes' := SetLink(nodes', stack.entries[k - 1].slot, true, y);
    } else {
      nodes' := SetLink(nodes', stack.entries[k - 1].slot, false, y);
    }
  }

  /** First half of a double rotation: the child of `p1` away from `d` rises above `p1`, below `p2`. */
  method RotateInnerCells(nodes: seq<Cell>, p2: nat, p1: nat, d: bool) returns (nodes': seq<Cell>, y: nat)
    requires p1 < |nodes| && p2 < |nodes| && p1 != p2
    requires !Get(nodes[p1], !d).thread && 0 <= Get(nodes[p1], !d).to < |nodes|
    requires Get(nodes[p1], !d).to != p1 && Get(nodes[p1], !d).to != p2
    ensures y == Get(nodes[p1], !d).to && |nodes'| == |nodes|
    ensures Risen(nodes, nodes', p1, y, !d)
    ensures nodes'[p2] == WithLink(nodes[p2], d, Get(nodes[p2], d).(to := y))
    ensures SameOutside(nodes, nodes', {p1, y, p2})
  {
    nodes' := nodes;
    y := Get(nodes'[p1], !d).to;
    nodes' := SetLink(nodes', p1, !d, Get(nodes'[y], d).to);
    nodes' := SetLink(nodes', y, d, p1);
    nodes' := SetLink(nodes', p2, d, y);
    if Get(nodes'[y], d).thread {
      nodes' := SetThread(nodes', y, d, false);
      nodes' := SetThread(nodes', p1, !d, true);
      nodes' := SetLink(nodes', p1, !d, y);
    }
  }

  /** `y`, the child of `p` on side `d`, takes the place of `p` below the node at `k - 1` on the path,
      with the subtree between them still hanging from the wrong cell if it is absent. */
  method Lift(nodes: seq<Cell>, root: int, stack: PathStack, k: nat, p: nat, y: nat, d: bool)
    returns (nodes': seq<Cell>, root': int)
    requires k <= stack.entries.Length && (k > 0 ==> Apart(nodes, stack.entries[k - 1], p, y))
    requires p < |nodes| && y < |nodes| && p != y
    ensures |nodes'| == |nodes|
    ensures nodes'[p] == WithLink(nodes[p], d, Get(nodes[p], d).(to := Get(nodes[y], !d).to))
    ensures nodes'[y] == WithLink(nodes[y], !d, Get(nodes[y], !d).(to := p))
    ensures k == 0 ==> root' == y
    ensures k > 0 ==> root' == root
    ensures k > 0 ==> var e := stack.entries[k - 1];
                      nodes'[e.slot] == WithLink(nodes[e.slot], e.left, Get(nodes[e.slot], e.left).(to := y))
    ensures SameOutside(nodes, nodes', {p, y} + if k > 0 then {stack.entries[k - 1].slot} else {})
  {
    nodes' := SetLink(nodes, p, d, Get(nodes[y], !d).to);
    nodes' := SetLink(nodes', y, !d, p);
    nodes', root' := Relink(nodes', root, stack, k, y);
  }

  /** After `Lift`: an absent subtree between the two is replaced by a child link one way and a thread the other. */
  method FixThread(nodes: seq<Cell>, p: nat, y: nat, d: bool) returns (nodes': seq<Cell>)
    requires p < |nodes| && y < |nodes| && p != y
    ensures |nodes'| == |nodes|
    ensures nodes'[p] == if Get(nodes[y], !d).thread then WithLink(nodes[p], d, Link(true, y)) else nodes[p]
    ensures nodes'[y] == WithLink(nodes[y], !d, Get(nodes[y], !d).(thread := false))
    ensures SameOutside(nodes, nodes', {p, y})
  {
    nodes' := nodes;
    if Get(nodes'[y], !d).thread {
      nodes' := SetThread(nodes', y, !d, false);
      nodes' := SetThread(nodes', p, d, true);
      nodes' := SetLink(nodes', p, d, y);
    }
  }

  // ---- Tree by tree.

  /** The state a fix-up loop works on: the context `c` with `t` in its hole, on the stack and in memory. */
  ghost predicate At(nodes: seq<Cell>, root: int, s: seq<Entry>, n: nat, c: Ctx, t: Tree) {
    && n <= |s| && OnStack(c, s, n)
    && Holds(nodes, root, Fill(c, t)) && Distinct(Fill(c, t))
  }

  /** The cells a rotation of `t` in `c` writes. */
  function Touched(c: Ctx, t: Tree, left: bool): set<nat>
    requires t.Bin? && Sub(t, left).Bin?
  {
    {t.slot, Sub(t, left).slot} + if c.In? then {c.slot} else {}
  }

  lemma TouchedApart(c: Ctx, t: Tree, left: bool)
    requires t.Bin? && Sub(t, left).Bin? && Distinct(Fill(c, t))
    ensures var w, y := Touched(c, t, left), Sub(t, left);
            && w !! CtxRest(c) && w !! Slots(y.left) && w !! Slots(y.right) && w !! Slots(Sub(t, !left))
            && t.slot != y.slot && (c.In? ==> c.slot != t.slot && c.slot != y.slot)
            && w <= Slots(Fill(c, t))
  {
    FillDistinct(c, t);
    FillSlots(c, t);
    assert Distinct(Sub(t, left));
    assert Slots(Sub(t, left)) <= Slots(t) && Slots(Sub(t, !left)) <= Slots(t);
    assert CtxRest(c) <= CtxSlots(c);
  }

  /** The parent's link to a child decides the cells of both. */
  lemma ParentAndChild(nodes: seq<Cell>, root: int, c: Ctx, t: Tree, left: bool)
    requires t.Bin? && Sub(t, left).Bin? && Holds(nodes, root, Fill(c, t))
    ensures RepCtx(nodes, root, c, t.slot) && Rep(nodes, t, Lo(c), Hi(c))
    ensures t.slot < |nodes| && Sub(t, left).slot < |nodes| &&
        Get(nodes[t.slot], left) == Link(false, Sub(t, left).slot)
    ensures c.In? ==> c.slot < |nodes| && Get(nodes[c.slot], c.left) == Link(false, t.slot)
  {
    HoldsFill(nodes, root, c, t);
  }

  lemma RisenRep(nodes: seq<Cell>, nodes': seq<Cell>, t: Tree, left: bool, lo: int, hi: int)
    requires t.Bin? && Sub(t, left).Bin? && Rep(nodes, t, lo, hi)
    requires t.slot < |nodes| == |nodes'| && Sub(t, left).slot < |nodes|
    requires Risen(nodes, nodes', t.slot, Sub(t, left).slot, left)
    requires var y := Sub(t, left);
             && SameOn(nodes, nodes', Slots(y.left)) && SameOn(nodes, nodes', Slots(y.right))
             && SameOn(nodes, nodes', Slots(Sub(t, !left)))
    ensures Rep(nodes', RotateUp(left, t), lo, hi)
  {
    var y := Sub(t, left);
    if left {
      RepFrame(nodes, nodes', y.left, lo, y.slot);
      RepFrame(nodes, nodes', y.right, y.slot, t.slot);
      RepFrame(nodes, nodes', t.right, t.slot, hi);
    } else {
      RepFrame(nodes, nodes', t.left, lo, t.slot);
      RepFrame(nodes, nodes', y.left, t.slot, y.slot);
      RepFrame(nodes, nodes', y.right, y.slot, hi);
    }
  }

  /** The rotated tree is in place once its two cells and the link above are. */
  lemma RisenHolds(nodes: seq<Cell>, nodes': seq<Cell>, root: int, root': int, c: Ctx, t: Tree, left: bool)
    requires t.Bin? && Sub(t, left).Bin? && Holds(nodes, root, Fill(c, t)) && Distinct(Fill(c, t))
    requires t.slot < |nodes| == |nodes'| && Sub(t, left).slot < |nodes|
    requires Risen(nodes, nodes', t.slot, Sub(t, left).slot, left)
    requires SameOutside(nodes, nodes', Touched(c, t, left))
    requires c.Top? ==> root' == Sub(t, left).slot
    requires c.In? ==> root' == root && c.slot < |nodes|
                       && nodes'[c.slot] == WithLink(nodes[c.slot], c.left,
                           Get(nodes[c.slot], c.left).(to := Sub(t, left).slot))
    ensures Holds(nodes', root', Fill(c, RotateUp(left, t)))
    ensures SameOrder(Fill(c, RotateUp(left, t)), Fill(c, t))
    ensures SameOutside(nodes, nodes', Slots(Fill(c, t)))
  {
    var w, y := Touched(c, t, left), Sub(t, left);
    TouchedApart(c, t, left);
    ParentAndChild(nodes, root, c, t, left);
    Untouched(nodes, nodes', w, CtxRest(c));
    Untouched(nodes, nodes', w, Slots(y.left));
    Untouched(nodes, nodes', w, Slots(y.right));
    Untouched(nodes, nodes', w, Slots(Sub(t, !left)));
    SameOutsideMore(nodes, nodes', w, Slots(Fill(c, t)));
    RisenRep(nodes, nodes', t, left, Lo(c), Hi(c));
    if c.In? { Repointed(nodes, root, c, t.slot, y.slot); }
    Graft(nodes, nodes', root, root', c, t.slot, RotateUp(left, t));
    RotateUpOrder(left, t);
    FillOrder(c, RotateUp(left, t), t);
  }

  /** Painting the root of `t`, slot `i`. */
  method Paint(nodes: seq<Cell>, root: int, i: nat, red: bool, ghost c: Ctx, ghost t: Tree) returns (nodes': seq<Cell>)
    requires t.Bin? && t.slot == i && Holds(nodes, root, Fill(c, t)) && Distinct(Fill(c, t))
    ensures Holds(nodes', root, Fill(c, t.(red := red)))
    ensures SameOrder(Fill(c, t.(red := red)), Fill(c, t))
    ensures SameOutside(nodes, nodes', Slots(Fill(c, t)))
  {
    PaintHolds(nodes, root, c, t, red);
    nodes' := SetRed(nodes, i, red);
  }

  /** The grandchild rises: a rotation below the node `p2`. */
  method RotateInner(nodes: seq<Cell>, root: int, p2: nat, p1: nat, d: bool, ghost c: Ctx, ghost t: Tree)
    returns (nodes': seq<Cell>, y: nat)
    requires t.Bin? && Sub(t, !d).Bin? && Holds(nodes, root, Fill(c, t)) && Distinct(Fill(c, t))
    requires c.In? && c.slot == p2 && c.left == d && t.slot == p1
    ensures y == Sub(t, !d).slot
    ensures Holds(nodes', root, Fill(c, RotateUp(!d, t)))
    ensures SameOrder(Fill(c, RotateUp(!d, t)), Fill(c, t))
    ensures SameOutside(nodes, nodes', Slots(Fill(c, t)))
  {
    ParentAndChild(nodes, root, c, t, !d);
    TouchedApart(c, t, !d);
    nodes', y := RotateInnerCells(nodes, p2, p1, d);
    RisenHolds(nodes, nodes', root, root, c, t, !d);
  }

  /** A child rises into the place of its parent below the path on the stack. */
  method RotateOuter(nodes: seq<Cell>, root: int, stack: PathStack, k: nat, p: nat, y: nat, d: bool, ghost c: Ctx,
      ghost t: Tree)
    returns (nodes': seq<Cell>, root': int)
    requires t.Bin? && Sub(t, d).Bin? && Holds(nodes, root, Fill(c, t)) && Distinct(Fill(c, t))
    requires k <= stack.entries.Length && OnStack(c, stack.entries[..], k)
    requires t.slot == p && Sub(t, d).slot == y
    ensures Holds(nodes', root', Fill(c, RotateUp(d, t)))
    ensures SameOrder(Fill(c, RotateUp(d, t)), Fill(c, t))
    ensures SameOutside(nodes, nodes', Slots(Fill(c, t)))
  {
    ParentAndChild(nodes, root, c, t, d);
    TouchedApart(c, t, d);
    nodes', root' := Lift(nodes, root, stack, k, p, y, d);
    nodes' := FixThread(nodes', p, y, d);
    RisenHolds(nodes, nodes', root, root', c, t, d);
  }

  /** The same when the subtree between the two is known to be there. */
  method RotateOuterChild(nodes: seq<Cell>, root: int, stack: PathStack, k: nat, p: nat, y: nat, d: bool,
      ghost c: Ctx, ghost t: Tree)
    returns (nodes': seq<Cell>, root': int)
    requires t.Bin? && Sub(t, d).Bin? && Holds(nodes, root, Fill(c, t)) && Distinct(Fill(c, t))
    requires Sub(Sub(t, d), !d).Bin?
    requires k <= stack.entries.Length && OnStack(c, stack.entries[..], k)
    requires t.slot == p && Sub(t, d).slot == y
    ensures Holds(nodes', root', Fill(c, RotateUp(d, t)))
    ensures SameOrder(Fill(c, RotateUp(d, t)), Fill(c, t))
    ensures SameOutside(nodes, nodes', Slots(Fill(c, t)))
  {
    ParentAndChild(nodes, root, c, t, d);
    TouchedApart(c, t, d);
    nodes', root' := Lift(nodes, root, stack, k, p, y, d);
    RisenHolds(nodes, nodes', root, root', c, t, d);
  }
}
