/** The threaded representation of a tree in a pool of cells.

    A cell has two links.  A child link names a slot; a thread names the in-order
    neighbour, or NIL at the two ends.  `Rep` fixes every bit of every cell of the
    tree, so it says at once that links, threads, colours and used-flags are exact. */
module Threads {
  import opened Shape

  /** The sentinel: a value that is no slot. */
  const NIL: int := -1

  datatype Link = Link(thread: bool, to: int)

  datatype Cell = Cell(left: Link, right: Link, red: bool, empty: bool)

  /** Fresh cells are all ones: empty, and threads to the sentinel. */
  const BLANK: Cell := Cell(Link(true, NIL), Link(true, NIL), true, true)

  function Get(c: Cell, left: bool): Link { if left then c.left else c.right }

  function WithLink(c: Cell, left: bool, l: Link): Cell {
    if left then c.(left := l) else c.(right := l)
  }

  // ---- The setters of a pooled cell; `left` chooses the side.

  function SetLink(nodes: seq<Cell>, i: int, left: bool, to: int): seq<Cell>
    requires 0 <= i < |nodes|
  {
    nodes[i := WithLink(nodes[i], left, Get(nodes[i], left).(to := to))]
  }

  function SetThread(nodes: seq<Cell>, i: int, left: bool, thread: bool): seq<Cell>
    requires 0 <= i < |nodes|
  {
    nodes[i := WithLink(nodes[i], left, Get(nodes[i], left).(thread := thread))]
  }

  function SetRed(nodes: seq<Cell>, i: int, red: bool): seq<Cell>
    requires 0 <= i < |nodes|
  {
    nodes[i := nodes[i].(red := red)]
  }

  function SetEmpty(nodes: seq<Cell>, i: int, empty: bool): seq<Cell>
    requires 0 <= i < |nodes|
  {
    nodes[i := nodes[i].(empty := empty)]
  }

  // ---- Representation.

  function SlotOf(t: Tree): int { if t.Nil? then NIL else t.slot }

  /** The link to a subtree whose root is `h`; an absent subtree (NIL) becomes a thread. */
  function LinkTo(h: int, outer: int): Link {
    if h == NIL then Link(true, outer) else Link(false, h)
  }

  /** `nodes` holds `t`, whose in-order neighbours outside are `lo` and `hi`. */
  predicate Rep(nodes: seq<Cell>, t: Tree, lo: int, hi: int) {
    match t
    case Nil => true
    case Bin(l, i, red, r) =>
      && i < |nodes|
      && nodes[i] == Cell(LinkTo(SlotOf(l), lo), LinkTo(SlotOf(r), hi), red, false)
      && Rep(nodes, l, lo, i)
      && Rep(nodes, r, i, hi)
  }

  /** The in-order neighbours of the hole. */
  function Lo(c: Ctx): int {
    match c
    case Top => NIL
    case In(up, i, _, left, _) => if left then Lo(up) else i
  }

  function Hi(c: Ctx): int {
    match c
    case Top => NIL
    case In(up, i, _, left, _) => if left then i else Hi(up)
  }

  function FrameCell(c: Ctx, h: int): Cell
    requires c.In?
  {
    if c.left then Cell(LinkTo(h, Lo(c.up)), LinkTo(SlotOf(c.sibling), Hi(c.up)), c.red, false)
    else Cell(LinkTo(SlotOf(c.sibling), Lo(c.up)), LinkTo(h, Hi(c.up)), c.red, false)
  }

  /** `nodes` and `root` hold the context `c`, with `h` the root slot of what fills the hole. */
  predicate RepCtx(nodes: seq<Cell>, root: int, c: Ctx, h: int) {
    match c
    case Top => root == h
    case In(up, i, _, left, s) =>
      && i < |nodes|
      && nodes[i] == FrameCell(c, h)
      && Rep(nodes, s, if left then i else Lo(up), if left then Hi(up) else i)
      && RepCtx(nodes, root, up, i)
  }

  /** `nodes` and `root` hold the whole tree. */
  predicate Holds(nodes: seq<Cell>, root: int, t: Tree) {
    root == SlotOf(t) && Rep(nodes, t, NIL, NIL)
  }

  /** A represented tree splits at any node into a context and a subtree, and back. */
  lemma {:induction false} HoldsFill(nodes: seq<Cell>, root: int, c: Ctx, t: Tree)
    ensures Holds(nodes, root, Fill(c, t)) <==>
            RepCtx(nodes, root, c, SlotOf(t)) && Rep(nodes, t, Lo(c), Hi(c))
    decreases c
  {
    if c.Top? {
    } else {
      HoldsFill(nodes, root, c.up, Join(c.left, t, c.slot, c.red, c.sibling));
    }
  }

  // ---- Frame rules.

  predicate SameOn(nodes: seq<Cell>, nodes': seq<Cell>, s: set<nat>) {
    |nodes| <= |nodes'| && forall i :: i in s && i < |nodes| ==> nodes'[i] == nodes[i]
  }

  /** At most the cells of `s` differ. */
  predicate SameOutside(nodes: seq<Cell>, nodes': seq<Cell>, s: set<nat>) {
    |nodes| == |nodes'| && forall i :: 0 <= i < |nodes| && i !in s ==> nodes'[i] == nodes[i]
  }

  lemma Untouched(nodes: seq<Cell>, nodes': seq<Cell>, s: set<nat>, u: set<nat>)
    requires SameOutside(nodes, nodes', s) && s !! u
    ensures SameOn(nodes, nodes', u)
  {
  }

  lemma SameOutsideMore(nodes: seq<Cell>, nodes': seq<Cell>, s: set<nat>, u: set<nat>)
    requires SameOutside(nodes, nodes', s) && s <= u
    ensures SameOutside(nodes, nodes', u)
  {
  }

  lemma {:induction false} RepFrame(nodes: seq<Cell>, nodes': seq<Cell>, t: Tree, lo: int, hi: int)
    requires Rep(nodes, t, lo, hi)
    requires SameOn(nodes, nodes', Slots(t))
    ensures Rep(nodes', t, lo, hi)
    decreases t
  {
    if t.Nil? {
    } else {
      RepFrame(nodes, nodes', t.left, lo, t.slot);
      RepFrame(nodes, nodes', t.right, t.slot, hi);
    }
  }

  lemma {:induction false} RepCtxFrame(nodes: seq<Cell>, nodes': seq<Cell>, root: int, c: Ctx, h: int)
    requires RepCtx(nodes, root, c, h)
    requires SameOn(nodes, nodes', CtxSlots(c))
    ensures RepCtx(nodes', root, c, h)
    decreases c
  {
    if c.Top? {
    } else {
      RepFrame(nodes, nodes', c.sibling, if c.left then c.slot else Lo(c.up), if c.left then Hi(c.up) else c.slot);
      RepCtxFrame(nodes, nodes', root, c.up, c.slot);
    }
  }

  /** The innermost frame of `c`, or the root if there is none, points at `h`. */
  predicate PointsAt(nodes: seq<Cell>, root: int, c: Ctx, h: int) {
    if c.Top? then root == h else c.slot < |nodes| && nodes[c.slot] == FrameCell(c, h)
  }

  /** Overwriting the target of a child link is all it takes to point the frame elsewhere. */
  lemma Repointed(nodes: seq<Cell>, root: int, c: Ctx, h: nat, y: nat)
    requires PointsAt(nodes, root, c, h) && c.In?
    ensures WithLink(nodes[c.slot], c.left, Get(nodes[c.slot], c.left).(to := y)) == FrameCell(c, y)
  {
  }

  function CtxRest(c: Ctx): set<nat> {
    if c.Top? then {} else Slots(c.sibling) + CtxSlots(c.up)
  }

  /** Filling the hole with something else: apart from the new subtree, only the innermost
      frame's cell (or the root) may change. */
  lemma Graft(nodes: seq<Cell>, nodes': seq<Cell>, root: int, root': int, c: Ctx, h: int, t: Tree)
    requires RepCtx(nodes, root, c, h)
    requires SameOn(nodes, nodes', CtxRest(c))
    requires PointsAt(nodes', root', c, SlotOf(t)) && (c.In? ==> root' == root)
    requires Rep(nodes', t, Lo(c), Hi(c))
    ensures Holds(nodes', root', Fill(c, t))
  {
    if c.In? {
      RepFrame(nodes, nodes', c.sibling, if c.left then c.slot else Lo(c.up), if c.left then Hi(c.up) else c.slot);
      RepCtxFrame(nodes, nodes', root, c.up, c.slot);
    }
    HoldsFill(nodes', root', c, t);
  }

  /** Painting one node. */
  lemma PaintHolds(nodes: seq<Cell>, root: int, c: Ctx, t: Tree, red: bool)
    requires t.Bin? && Holds(nodes, root, Fill(c, t)) && Distinct(Fill(c, t))
    ensures t.slot < |nodes| && nodes[t.slot].red == t.red
    ensures t.slot in Slots(Fill(c, t))
    ensures Holds(SetRed(nodes, t.slot, red), root, Fill(c, t.(red := red)))
    ensures SameOrder(Fill(c, t), Fill(c, t.(red := red)))
  {
    HoldsFill(nodes, root, c, t);
    FillDistinct(c, t);
    FillSlots(c, t);
    var nodes' := SetRed(nodes, t.slot, red);
    RepFrame(nodes, nodes', t.left, Lo(c), t.slot);
    RepFrame(nodes, nodes', t.right, t.slot, Hi(c));
    RepCtxFrame(nodes, nodes', root, c, t.slot);
    HoldsFill(nodes', root, c, t.(red := red));
    FillOrder(c, t, t.(red := red));
  }

  lemma {:induction false} RepInPool(nodes: seq<Cell>, t: Tree, lo: int, hi: int)
    requires Rep(nodes, t, lo, hi)
    ensures forall i :: i in Slots(t) ==> i < |nodes| && !nodes[i].empty
    decreases t
  {
    if t.Nil? {
    } else {
      RepInPool(nodes, t.left, lo, t.slot);
      RepInPool(nodes, t.right, t.slot, hi);
    }
  }

  /** The last element of a sequence of slots, or NIL. */
  function Last(s: seq<nat>): int { if s == [] then NIL else s[|s| - 1] }

  function First(s: seq<nat>): int { if s == [] then NIL else s[0] }

  lemma {:induction false} LoHi(c: Ctx)
    ensures Lo(c) == Last(Before(c)) && Hi(c) == First(After(c))
  {
    if c.Top? {
    } else {
      LoHi(c.up);
    }
  }
}
