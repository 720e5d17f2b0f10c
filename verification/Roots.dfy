/** The root record of a tree.  The element count and the cached ends are optional:
    the ordered containers keep both, the buckets of the hash table keep neither. */
module Roots {
  import opened Shape
  import opened Threads

  datatype TreeRoot = TreeRoot(root: int, counted: bool, count: int, ends: bool, left: int, right: int) {
    function IncreaseCount(): TreeRoot { if counted then this.(count := count + 1) else this }

    function DecreaseCount(): TreeRoot { if counted then this.(count := count - 1) else this }

    function SetEnds(l: int, r: int): TreeRoot { if ends then this.(left := l, right := r) else this }

    function UpdateLeft(check: int, value: int): TreeRoot {
      if ends && check == left then this.(left := value) else this
    }

    function UpdateRight(check: int, value: int): TreeRoot {
      if ends && check == right then this.(right := value) else this
    }
  }

  function EmptyRoot(counted: bool, ends: bool): TreeRoot {
    TreeRoot(NIL, counted, 0, ends, NIL, NIL)
  }

  /** The record agrees with the in-order sequence of the tree. */
  predicate Agrees(r: TreeRoot, s: seq<nat>) {
    && (r.counted ==> r.count == |s|)
    && (r.ends ==> r.left == First(s) && r.right == Last(s))
  }

  /** Everything a root record and its cells must satisfy, but for search order. */
  ghost predicate IsTree(nodes: seq<Cell>, r: TreeRoot, t: Tree) {
    Holds(nodes, r.root, t) && Distinct(t) && RedBlack(t) && Agrees(r, Inorder(t))
  }

  /** The root is painted black at the end of every rebalancing. */
  method BlackenRoot(nodes: seq<Cell>, root: int, ghost t: Tree) returns (nodes': seq<Cell>, ghost t': Tree)
    requires t.Bin? && Holds(nodes, root, t) && Distinct(t) && Balanced(t) && NoRedRed(Blacken(t))
    ensures Holds(nodes', root, t') && Distinct(t') && RedBlack(t')
    ensures Inorder(t') == Inorder(t)
    ensures SameOutside(nodes, nodes', Slots(t))
  {
    PaintHolds(nodes, root, Top, t, false);
    nodes' := SetRed(nodes, root, false);
    t' := Blacken(t);
  }
}
