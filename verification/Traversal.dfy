/** Walking the threads: `move_next` and `move_prev`. */
module Traversal {
  import opened Shape
  import opened Threads
  import opened Search

  /** The in-order successor of the node `node`, the root of `t` in the context `c`. */
  method MoveNext(nodes: seq<Cell>, node: nat, ghost root: int, ghost c: Ctx, ghost t: Tree) returns (r: int)
    requires t.Bin? && t.slot == node && Holds(nodes, root, Fill(c, t))
    ensures r == First(Inorder(t.right) + After(c))
  {
    HoldsFill(nodes, root, c, t);
    LoHi(c);
    if nodes[node].right.thread {
      return nodes[node].right.to;
    }
    r := nodes[node].right.to;
    ghost var v, lo, hi := t.right, node, Hi(c);
    while !nodes[r].left.thread
      invariant v.Bin? && r == v.slot && Rep(nodes, v, lo, hi) && r < |nodes|
      invariant First(Inorder(v)) == First(Inorder(t.right)) && Inorder(t.right) != []
      decreases v
    {
      r := nodes[r].left.to;
      hi := v.slot;
      v := v.left;
    }
  }

  /** The in-order predecessor. */
  method MovePrev(nodes: seq<Cell>, node: nat, ghost root: int, ghost c: Ctx, ghost t: Tree) returns (r: int)
    requires t.Bin? && t.slot == node && Holds(nodes, root, Fill(c, t))
    ensures r == Last(Before(c) + Inorder(t.left))
  {
    HoldsFill(nodes, root, c, t);
    LoHi(c);
    if nodes[node].left.thread {
      return nodes[node].left.to;
    }
    r := nodes[node].left.to;
    ghost var v, lo, hi := t.left, Lo(c), node;
    while !nodes[r].right.thread
      invariant v.Bin? && r == v.slot && Rep(nodes, v, lo, hi) && r < |nodes|
      invariant Last(Inorder(v)) == Last(Inorder(t.left)) && Inorder(t.left) != []
      decreases v
    {
      r := nodes[r].right.to;
      lo := v.slot;
      v := v.right;
    }
  }

  /** Every slot of a tree is the root of a subtree somewhere in it. */
  lemma {:induction false} Locate(c0: Ctx, t0: Tree, x: nat) returns (c: Ctx, t: Tree)
    requires x in Slots(t0)
    ensures t.Bin? && t.slot == x && Fill(c, t) == Fill(c0, t0)
    decreases t0
  {
    if x == t0.slot {
      c, t := c0, t0;
    } else if x in Slots(t0.left) {
      c, t := Locate(In(c0, t0.slot, t0.red, true, t0.right), t0.left, x);
    } else {
      c, t := Locate(In(c0, t0.slot, t0.red, false, t0.left), t0.right, x);
    }
  }

  /** The neighbours of a node, by position. */
  lemma Neighbours(c: Ctx, t: Tree, i: nat)
    requires t.Bin? && Distinct(Fill(c, t))
    requires i < |Inorder(Fill(c, t))| && Inorder(Fill(c, t))[i] == t.slot
    ensures First(Inorder(t.right) + After(c)) == Nth(Inorder(Fill(c, t)), i + 1)
    ensures Last(Before(c) + Inorder(t.left)) == Nth(Inorder(Fill(c, t)), i - 1)
  {
    NodeInOrder(c, t);
    DistinctInorder(Fill(c, t));
    var x, y, s := Before(c) + Inorder(t.left), Inorder(t.right) + After(c), Inorder(Fill(c, t));
    assert s[|x|] == t.slot;
    assert i == |x|;
  }

  /** One step forward from the `i`-th slot in order. */
  method Next(nodes: seq<Cell>, node: nat, ghost root: int, ghost u: Tree, ghost i: nat) returns (r: int)
    requires Holds(nodes, root, u) && Distinct(u) && i < |Inorder(u)| && Inorder(u)[i] == node
    ensures r == Nth(Inorder(u), i + 1)
  {
    SlotsAreInorder(u);
    ghost var c, t := Locate(Top, u, node);
    Neighbours(c, t, i);
    r := MoveNext(nodes, node, root, c, t);
  }

  /** One step backward. */
  method Prev(nodes: seq<Cell>, node: nat, ghost root: int, ghost u: Tree, ghost i: nat) returns (r: int)
    requires Holds(nodes, root, u) && Distinct(u) && i < |Inorder(u)| && Inorder(u)[i] == node
    ensures r == Nth(Inorder(u), i - 1)
  {
    SlotsAreInorder(u);
    ghost var c, t := Locate(Top, u, node);
    Neighbours(c, t, i);
    r := MovePrev(nodes, node, root, c, t);
  }

  /** Walking from the slot at position `i` to that at position `j`, or to the end. */
  method Distance(nodes: seq<Cell>, from: int, to: int, ghost root: int, ghost u: Tree, ghost i: nat,
      ghost j: nat) returns (n: nat)
    requires Holds(nodes, root, u) && Distinct(u) && i <= j <= |Inorder(u)|
    requires from == Nth(Inorder(u), i) && to == Nth(Inorder(u), j)
    ensures n == j - i
  {
    DistinctInorder(u);
    var p := from;
    n := 0;
    ghost var at := i;
    while p != to
      invariant i <= at <= j && n == at - i && p == Nth(Inorder(u), at)
      decreases j - at
    {
      p := Next(nodes, p, root, u, at);
      n, at := n + 1, at + 1;
    }
  }
}
