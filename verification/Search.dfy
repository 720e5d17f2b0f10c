/** Searching: the path finders, the bounds and the equal range.

    A search key is given by two predicates on slots: `below(p)`, the key stored at `p` is
    before the key sought, and `above(p)`, it is after.  On a sorted tree the slots are, in order,
    those below, those neither below nor above, and those above. */
module Search {
  import opened Shape
  import opened Threads
  import opened PathStacks

  /** Once `f` fails it keeps failing. */
  ghost predicate Falling(s: seq<nat>, f: nat -> bool) {
    forall i, j :: 0 <= i < j < |s| && f(s[j]) ==> f(s[i])
  }

  function NotF(f: nat -> bool): nat -> bool {
    (p: nat) => !f(p)
  }

  /** The slots, in order, are below, then level with, then above the key. */
  ghost predicate Cut(s: seq<nat>, below: nat -> bool, above: nat -> bool) {
    && Falling(s, below) && Falling(s, NotF(above))
    && forall i :: 0 <= i < |s| ==> !(below(s[i]) && above(s[i]))
  }

  ghost predicate All(s: seq<nat>, f: nat -> bool) {
    forall x :: x in s ==> f(x)
  }

  ghost predicate None(s: seq<nat>, f: nat -> bool) {
    forall x :: x in s ==> !f(x)
  }

  /** How many slots come before the first that fails `f`. */
  function Rank(s: seq<nat>, f: nat -> bool): nat {
    if s == [] || !f(s[0]) then 0 else 1 + Rank(s[1..], f)
  }

  function Nth(s: seq<nat>, k: int): int {
    if 0 <= k < |s| then s[k] else NIL
  }

  lemma {:induction false} RankSplit(a: seq<nat>, b: seq<nat>, f: nat -> bool)
    requires All(a, f) && None(b, f)
    ensures Rank(a + b, f) == |a|
  {
    if a == [] {
      assert a + b == b;
      assert b != [] ==> b[0] in b;
    } else {
      assert a[0] in a;
      assert (a + b)[1..] == a[1..] + b;
      RankSplit(a[1..], b, f);
    }
  }

  /** The maximal prefix: what `Rank` means. */
  lemma {:induction false} RankMeaning(s: seq<nat>, f: nat -> bool)
    requires Falling(s, f)
    ensures Rank(s, f) <= |s|
    ensures forall i :: 0 <= i < |s| ==> (f(s[i]) <==> i < Rank(s, f))
  {
    if s == [] || !f(s[0]) {
    } else {
      assert forall i :: 0 <= i < |s| - 1 ==> s[1..][i] == s[i + 1];
      RankMeaning(s[1..], f);
      forall i | 0 <= i < |s| ensures f(s[i]) <==> i < Rank(s, f) {
        assert i > 0 ==> s[i] == s[1..][i - 1];
      }
    }
  }

  lemma FallingAround(a: seq<nat>, p: nat, b: seq<nat>, f: nat -> bool)
    requires Falling(a + [p] + b, f)
    ensures f(p) ==> All(a, f)
    ensures !f(p) ==> None(b, f)
  {
    var s := a + [p] + b;
    assert s[|a|] == p;
    assert forall i :: 0 <= i < |a| ==> s[i] == a[i];
    forall x | x in b ensures f(x) ==> f(p) {
      var j :| 0 <= j < |b| && b[j] == x;
      assert s[|a| + 1 + j] == x;
    }
  }

  /** A node of the tree, in terms of the sequence. */
  lemma NodeInOrder(c: Ctx, t: Tree)
    requires t.Bin?
    ensures Inorder(Fill(c, t)) == (Before(c) + Inorder(t.left)) + [t.slot] + (Inorder(t.right) + After(c))
  {
    FillInorder(c, t);
    Regroup(Before(c), Inorder(t.left), t.slot, Inorder(t.right), After(c));
  }

  /** What is known before a node is known of everything in order before it, and likewise after. */
  lemma StepSplit(c: Ctx, t: Tree, f: nat -> bool)
    requires t.Bin? && Falling(Inorder(Fill(c, t)), f) && All(Before(c), f) && None(After(c), f)
    ensures f(t.slot) ==> All(Before(In(c, t.slot, t.red, false, t.left)), f)
    ensures !f(t.slot) ==> None(After(In(c, t.slot, t.red, true, t.right)), f)
  {
    NodeInOrder(c, t);
    FallingAround(Before(c) + Inorder(t.left), t.slot, Inorder(t.right) + After(c), f);
  }

  /** The two links of the node under inspection. */
  lemma NodeLinks(nodes: seq<Cell>, root: int, c: Ctx, t: Tree)
    requires t.Bin? && Holds(nodes, root, Fill(c, t))
    ensures t.slot < |nodes| && nodes[t.slot].left == LinkTo(SlotOf(t.left), Lo(c)) &&
        nodes[t.slot].right == LinkTo(SlotOf(t.right), Hi(c))
    ensures Fill(In(c, t.slot, t.red, true, t.right), t.left) == Fill(c, t)
    ensures Fill(In(c, t.slot, t.red, false, t.left), t.right) == Fill(c, t)
  {
    HoldsFill(nodes, root, c, t);
  }

  // ---- Bounds.

  /** The hole of `c` is the border between the slots that satisfy `f` and those that do not. */
  ghost predicate Splits(c: Ctx, f: nat -> bool) {
    All(Before(c), f) && None(After(c), f)
  }

  lemma BorderFound(c: Ctx, f: nat -> bool)
    requires Splits(c, f)
    ensures var s := Inorder(Fill(c, Nil));
            && Rank(s, f) == |Before(c)|
            && Hi(c) == Nth(s, Rank(s, f)) && Lo(c) == Nth(s, Rank(s, f) - 1)
  {
    FillInorder(c, Nil);
    RankSplit(Before(c), After(c), f);
    assert Before(c) + [] + After(c) == Before(c) + After(c);
    LoHi(c);
  }

  /** Searches from `start` for the first slot that does not satisfy `f`; `w0` is one known not to. */
  method FirstFailing(nodes: seq<Cell>, start: int, f: nat -> bool, w0: int, ghost root: int, ghost c0: Ctx,
      ghost t0: Tree)
    returns (w: int)
    requires Holds(nodes, root, Fill(c0, t0)) && start == SlotOf(t0) && w0 == Hi(c0)
    requires Falling(Inorder(Fill(c0, t0)), f) && Splits(c0, f)
    ensures var s := Inorder(Fill(c0, t0)); w == Nth(s, Rank(s, f))
  {
    var p := start;
    w := w0;
    ghost var c, t := c0, t0;
    while p != NIL
      invariant p == SlotOf(t) && Fill(c, t) == Fill(c0, t0)
      invariant Splits(c, f) && w == Hi(c)
      decreases t
    {
      NodeLinks(nodes, root, c, t);
      StepSplit(c, t, f);
      if f(p) {
        c, t := In(c, t.slot, t.red, false, t.left), t.right;
        if nodes[p].right.thread {
          break;
        }
        p := nodes[p].right.to;
      } else {
        w := p;
        c, t := In(c, t.slot, t.red, true, t.right), t.left;
        if nodes[p].left.thread {
          break;
        }
        p := nodes[p].left.to;
      }
    }
    assert t == Nil && Fill(c, Nil) == Fill(c0, t0);
    BorderFound(c, f);
  }

  /** Searches from the root for the last slot that satisfies `f`. */
  method LastHolding(nodes: seq<Cell>, root: int, f: nat -> bool, ghost u: Tree) returns (w: int)
    requires Holds(nodes, root, u) && Falling(Inorder(u), f)
    ensures w == Nth(Inorder(u), Rank(Inorder(u), f) - 1)
  {
    var p := root;
    w := NIL;
    ghost var c, t := Top, u;
    while p != NIL
      invariant p == SlotOf(t) && Fill(c, t) == u
      invariant Splits(c, f) && w == Lo(c)
      decreases t
    {
      NodeLinks(nodes, root, c, t);
      StepSplit(c, t, f);
      if f(p) {
        w := p;
        c, t := In(c, t.slot, t.red, false, t.left), t.right;
        if nodes[p].right.thread {
          break;
        }
        p := nodes[p].right.to;
      } else {
        c, t := In(c, t.slot, t.red, true, t.right), t.left;
        if nodes[p].left.thread {
          break;
        }
        p := nodes[p].left.to;
      }
    }
    assert t == Nil && Fill(c, Nil) == u;
    BorderFound(c, f);
  }

  /** The first slot not below the key. */
  method LowerBound(nodes: seq<Cell>, root: int, below: nat -> bool, ghost u: Tree) returns (w: int)
    requires Holds(nodes, root, u) && Falling(Inorder(u), below)
    ensures w == Nth(Inorder(u), Rank(Inorder(u), below))
  {
    w := FirstFailing(nodes, root, below, NIL, root, Top, u);
  }

  /** The first slot above the key. */
  method UpperBound(nodes: seq<Cell>, root: int, above: nat -> bool, ghost u: Tree) returns (w: int)
    requires Holds(nodes, root, u) && Falling(Inorder(u), NotF(above))
    ensures w == Nth(Inorder(u), Rank(Inorder(u), NotF(above)))
  {
    w := FirstFailing(nodes, root, NotF(above), NIL, root, Top, u);
  }

  /** The last slot not above the key. */
  method ReverseLowerBound(nodes: seq<Cell>, root: int, above: nat -> bool, ghost u: Tree) returns (w: int)
    requires Holds(nodes, root, u) && Falling(Inorder(u), NotF(above))
    ensures w == Nth(Inorder(u), Rank(Inorder(u), NotF(above)) - 1)
  {
    w := LastHolding(nodes, root, NotF(above), u);
  }

  /** The last slot below the key. */
  method ReverseUpperBound(nodes: seq<Cell>, root: int, below: nat -> bool, ghost u: Tree) returns (w: int)
    requires Holds(nodes, root, u) && Falling(Inorder(u), below)
    ensures w == Nth(Inorder(u), Rank(Inorder(u), below) - 1)
  {
    w := LastHolding(nodes, root, below, u);
  }

  /** Everything before the hole of `c` is below the key, everything after it above. */
  ghost predicate Between(c: Ctx, below: nat -> bool, above: nat -> bool) {
    All(Before(c), below) && All(After(c), above)
  }

  lemma StepCut(c: Ctx, t: Tree, below: nat -> bool, above: nat -> bool)
    requires t.Bin? && Cut(Inorder(Fill(c, t)), below, above) && Between(c, below, above)
    ensures t.slot in Inorder(Fill(c, t)) && !(below(t.slot) && above(t.slot))
    ensures below(t.slot) ==> Between(In(c, t.slot, t.red, false, t.left), below, above)
    ensures above(t.slot) ==> Between(In(c, t.slot, t.red, true, t.right), below, above)
  {
    var x, y := Before(c) + Inorder(t.left), Inorder(t.right) + After(c);
    NodeInOrder(c, t);
    assert (x + [t.slot] + y)[|x|] == t.slot;
    FallingAround(x, t.slot, y, below);
    FallingAround(x, t.slot, y, NotF(above));
    assert After(In(c, t.slot, t.red, true, t.right)) == [t.slot] + y;
  }

  lemma NothingLevel(c: Ctx, below: nat -> bool, above: nat -> bool)
    requires Between(c, below, above)
    ensures forall x :: x in Inorder(Fill(c, Nil)) ==> below(x) || above(x)
  {
    FillInorder(c, Nil);
  }

  /** A slot level with the key, or NIL if there is none. */
  method EqualUnique(nodes: seq<Cell>, root: int, below: nat -> bool, above: nat -> bool, ghost u: Tree)
      returns (w: int)
    requires Holds(nodes, root, u) && Cut(Inorder(u), below, above)
    ensures w != NIL ==> 0 <= w && w in Inorder(u) && !below(w) && !above(w)
    ensures w == NIL ==> forall x :: x in Inorder(u) ==> below(x) || above(x)
  {
    var p := root;
    ghost var c, t := Top, u;
    while p != NIL
      invariant p == SlotOf(t) && Fill(c, t) == u && Between(c, below, above)
      decreases t
    {
      NodeLinks(nodes, root, c, t);
      StepCut(c, t, below, above);
      if below(p) {
        c, t := In(c, t.slot, t.red, false, t.left), t.right;
        if nodes[p].right.thread {
          break;
        }
        p := nodes[p].right.to;
      } else {
        if !above(p) {
          return p;
        }
        c, t := In(c, t.slot, t.red, true, t.right), t.left;
        if nodes[p].left.thread {
          break;
        }
        p := nodes[p].left.to;
      }
    }
    NothingLevel(c, below, above);
    w := NIL;
  }

  /** The lower bound, and the first slot met on the way that is above the key. */
  method LowerNotingUpper(nodes: seq<Cell>, root: int, below: nat -> bool, above: nat -> bool, ghost u: Tree)
    returns (lower: int, upper: int, ghost cu: Ctx, ghost tu: Tree)
    requires Holds(nodes, root, u) && Falling(Inorder(u), below)
    ensures lower == Nth(Inorder(u), Rank(Inorder(u), below))
    ensures upper == NIL ==> cu == Top && tu == u
    ensures upper != NIL ==> tu.Bin? && tu.slot == upper && above(tu.slot) && All(Before(cu), below)
    ensures Fill(cu, tu) == u
  {
    var p := root;
    lower, upper := NIL, NIL;
    ghost var c, t := Top, u;
    cu, tu := Top, u;
    while p != NIL
      invariant p == SlotOf(t) && Fill(c, t) == u
      invariant Splits(c, below) && lower == Hi(c)
      invariant upper == NIL ==> cu == Top && tu == u
      invariant upper != NIL ==> tu.Bin? && tu.slot == upper && above(tu.slot) && All(Before(cu), below)
      invariant Fill(cu, tu) == u
      decreases t
    {
      NodeLinks(nodes, root, c, t);
      StepSplit(c, t, below);
      if below(p) {
        c, t := In(c, t.slot, t.red, false, t.left), t.right;
        if nodes[p].right.thread {
          break;
        }
        p := nodes[p].right.to;
      } else {
        if upper == NIL && above(p) {
          upper := p;
          cu, tu := c, t;
        }
        lower := p;
        c, t := In(c, t.slot, t.red, true, t.right), t.left;
        if nodes[p].left.thread {
          break;
        }
        p := nodes[p].left.to;
      }
    }
    assert t == Nil && Fill(c, Nil) == u;
    BorderFound(c, below);
  }

  /** First the lower bound, noting the first slot met that is above the key; then the upper bound,
      searched only below that slot. */
  method EqualRange(nodes: seq<Cell>, root: int, below: nat -> bool, above: nat -> bool, ghost u: Tree)
    returns (lower: int, upper: int)
    requires Holds(nodes, root, u) && Cut(Inorder(u), below, above)
    ensures lower == Nth(Inorder(u), Rank(Inorder(u), below))
    ensures upper == Nth(Inorder(u), Rank(Inorder(u), NotF(above)))
  {
    ghost var cu, tu;
    lower, upper, cu, tu := LowerNotingUpper(nodes, root, below, above, u);
    var p := root;
    if upper != NIL {
      NodeLinks(nodes, root, cu, tu);
      UpperFound(cu, tu, below, above);
      p := if !nodes[upper].left.thread then nodes[upper].left.to else NIL;
      cu, tu := In(cu, tu.slot, tu.red, true, tu.right), tu.left;
    }
    upper := FirstFailing(nodes, p, NotF(above), upper, root, cu, tu);
  }

  /** Nothing before a slot above the key, all below, is missed by restarting at its left child. */
  lemma UpperFound(c: Ctx, t: Tree, below: nat -> bool, above: nat -> bool)
    requires t.Bin? && Cut(Inorder(Fill(c, t)), below, above) && above(t.slot) && All(Before(c), below)
    ensures Splits(In(c, t.slot, t.red, true, t.right), NotF(above))
  {
    var x, y := Before(c) + Inorder(t.left), Inorder(t.right) + After(c);
    var s := Inorder(Fill(c, t));
    NodeInOrder(c, t);
    FallingAround(x, t.slot, y, NotF(above));
    assert After(In(c, t.slot, t.red, true, t.right)) == [t.slot] + y;
    forall q | q in Before(c) ensures !above(q) {
      var i :| 0 <= i < |Before(c)| && Before(c)[i] == q;
      assert s[i] == q;
    }
  }

  // ---- Paths.

  /** How many nodes the descent passes that goes left at the slots that satisfy `left`. */
  function PathLength(t: Tree, left: nat -> bool): nat {
    match t
    case Nil => 0
    case Bin(l, i, _, r) => 1 + if left(i) then PathLength(l, left) else PathLength(r, left)
  }

  lemma {:induction false} PathLengthBound(t: Tree, left: nat -> bool)
    ensures PathLength(t, left) <= Height(t)
  {
    if t.Nil? {
    } else {
      PathLengthBound(t.left, left);
      PathLengthBound(t.right, left);
    }
  }

  lemma {:induction false} PathLengthSame(t: Tree, f: nat -> bool, g: nat -> bool)
    requires forall x :: x in Slots(t) ==> f(x) == g(x)
    ensures PathLength(t, f) == PathLength(t, g)
  {
    if t.Nil? {
    } else {
      PathLengthSame(t.left, f, g);
      PathLengthSame(t.right, f, g);
    }
  }

  /** Records the path to the place of a new slot, after all slots not above it.
      The stack is too short, and the search gives up, exactly if the path is longer than it. */
  method FindPathForMulti(nodes: seq<Cell>, root: int, stack: PathStack, above: nat -> bool, ghost u: Tree)
    returns (ok: bool, ghost c: Ctx)
    requires Holds(nodes, root, u) && Falling(Inorder(u), NotF(above))
    modifies stack, stack.entries
    ensures ok <==> PathLength(u, above) <= stack.entries.Length
    ensures ok ==> stack.height <= stack.entries.Length && OnStack(c, stack.entries[..], stack.height)
    ensures ok ==> Fill(c, Nil) == u && Splits(c, NotF(above))
    ensures stack.reach == Max(old(stack.reach), stack.height)
  {
    stack.height := 0;
    var p := root;
    c := Top;
    ghost var t := u;
    while p != NIL
      invariant p == SlotOf(t) && Fill(c, t) == u && Splits(c, NotF(above))
      invariant stack.height <= stack.entries.Length && OnStack(c, stack.entries[..], stack.height)
      invariant PathLength(u, above) == stack.height + PathLength(t, above)
      invariant stack.reach == Max(old(stack.reach), stack.height)
      decreases t
    {
      NodeLinks(nodes, root, c, t);
      StepSplit(c, t, NotF(above));
      ghost var s, n := stack.entries[..], stack.height;
      var left := above(p);
      ok := stack.PushIndex(p, left);
      if !ok {
        return;
      }
      OnStackFrame(c, s, stack.entries[..], n);
      if left {
        c, t := In(c, t.slot, t.red, true, t.right), t.left;
        if nodes[p].left.thread {
          return;
        }
        p := nodes[p].left.to;
      } else {
        c, t := In(c, t.slot, t.red, false, t.left), t.right;
        if nodes[p].right.thread {
          return;
        }
        p := nodes[p].right.to;
      }
    }
    ok := true;
  }

  /** How many nodes the descent passes that stops at the first slot level with the key. */
  function UniquePathLength(t: Tree, below: nat -> bool, above: nat -> bool): nat {
    match t
    case Nil => 0
    case Bin(l, i, _, r) =>
      1 + if above(i) then UniquePathLength(l, below, above)
          else if below(i) then UniquePathLength(r, below, above) else 0
  }

  lemma {:induction false} UniquePathLengthBound(t: Tree, below: nat -> bool, above: nat -> bool)
    ensures UniquePathLength(t, below, above) <= Height(t)
  {
    if t.Nil? {
    } else {
      UniquePathLengthBound(t.left, below, above);
      UniquePathLengthBound(t.right, below, above);
    }
  }

  /** Records the path to a slot level with the key, that slot on top, or to the place where one would go. */
  method FindPathForUnique(nodes: seq<Cell>, root: int, stack: PathStack, below: nat -> bool, above: nat -> bool,
      ghost u: Tree)
    returns (ok: bool, found: bool, ghost c: Ctx, ghost t: Tree)
    requires Holds(nodes, root, u) && Cut(Inorder(u), below, above)
    modifies stack, stack.entries
    ensures ok <==> UniquePathLength(u, below, above) <= stack.entries.Length
    ensures ok ==> Fill(c, t) == u && Between(c, below, above) && stack.height <= stack.entries.Length
    ensures ok && !found ==> t == Nil && OnStack(c, stack.entries[..], stack.height)
    ensures ok && found ==> t.Bin? && !below(t.slot) && !above(t.slot) && t.slot in Inorder(u)
    ensures ok && found ==> stack.height > 0 && OnStack(c, stack.entries[..], stack.height - 1)
                            && stack.entries[stack.height - 1] == Entry(t.slot, false)
    ensures stack.reach == Max(old(stack.reach), stack.height)
  {
    stack.height := 0;
    found := false;
    var p := root;
    c, t := Top, u;
    while p != NIL
      invariant p == SlotOf(t) && Fill(c, t) == u && Between(c, below, above)
      invariant stack.height <= stack.entries.Length && OnStack(c, stack.entries[..], stack.height)
      invariant UniquePathLength(u, below, above) == stack.height + UniquePathLength(t, below, above)
      invariant stack.reach == Max(old(stack.reach), stack.height)
      decreases t
    {
      NodeLinks(nodes, root, c, t);
      StepCut(c, t, below, above);
      ghost var s, n := stack.entries[..], stack.height;
      var left := above(p);
      ok := stack.PushIndex(p, left);
      if !ok {
        return;
      }
      OnStackFrame(c, s, stack.entries[..], n);
      if left {
        c, t := In(c, t.slot, t.red, true, t.right), t.left;
        if nodes[p].left.thread {
          return;
        }
        p := nodes[p].left.to;
      } else {
        if !below(p) {
          found := true;
          return;
        }
        c, t := In(c, t.slot, t.red, false, t.left), t.right;
        if nodes[p].right.thread {
          return;
        }
        p := nodes[p].right.to;
      }
    }
    ok := true;
  }
}
