/** The trees that the fix-up after a removal goes through. */
module RemovalBalance {
  import opened Shape

  /** The hole is one black node short; `t` may be red above red children. */
  ghost predicate Deficit(c: Ctx, t: Tree) {
    && Balanced(t) && NoRedRed(Blacken(t))
    && CtxBalanced(c, BlackHeight(t) + 1) && CtxNoRedRed(c)
  }

  /** Balanced, and without red-red edges once the root is painted black. */
  ghost predicate Settled(t: Tree) {
    Balanced(t) && NoRedRed(Blacken(t))
  }

  lemma NoRedRedSettled(t: Tree)
    requires Balanced(t) && NoRedRed(t)
    ensures Settled(t)
  {
  }

  /** A red subtree makes up for the missing black node by turning black. */
  lemma RedSettles(c: Ctx, t: Tree)
    requires Deficit(c, t) && IsRed(t)
    ensures Settled(Fill(c, Blacken(t)))
  {
    FillBalanced(c, Blacken(t));
    FillNoRedRed(c, Blacken(t));
    NoRedRedSettled(Fill(c, Blacken(t)));
  }

  /** The near and the far child of the sibling, seen from the hole. */
  function Near(c: Ctx): Tree
    requires c.In? && c.sibling.Bin?
  {
    Sub(c.sibling, c.left)
  }

  function Far(c: Ctx): Tree
    requires c.In? && c.sibling.Bin?
  {
    Sub(c.sibling, !c.left)
  }

  /** The side that is not short always has a node, and a red sibling has two black children. */
  lemma SiblingThere(c: Ctx, t: Tree)
    requires Deficit(c, t) && c.In?
    ensures c.sibling.Bin?
    ensures IsRed(c.sibling) ==> !c.red && Near(c).Bin? && Far(c).Bin? && !Near(c).red && !Far(c).red
  {
  }

  /** Red sibling: it rises, and the hole gets a black sibling below a red parent. */
  function RedSibling(c: Ctx): Ctx
    requires c.In? && c.sibling.Bin?
  {
    In(In(c.up, c.sibling.slot, false, c.left, Far(c)), c.slot, true, c.left, Near(c))
  }

  lemma RedSiblingOk(c: Ctx, t: Tree)
    requires Deficit(c, t) && c.In? && IsRed(c.sibling)
    ensures Deficit(RedSibling(c), t) && RedSibling(c).sibling.Bin? && !RedSibling(c).sibling.red
    ensures Fill(RedSibling(c), t) ==
      Fill(c.up, RotateUp(!c.left, Join(c.left, t, c.slot, true, c.sibling.(red := false))))
  {
    SiblingThere(c, t);
    var b, c1 := RedSibling(c), RedSibling(c).up;
    assert CtxBalanced(c1, BlackHeight(t) + 1) && CtxNoRedRed(c1);
    assert Fill(b, t) == Fill(c1, Join(c.left, t, c.slot, true, Near(c)));
  }

  /** Black sibling with two black children: it turns red and the parent's subtree is short. */
  function PassedUp(c: Ctx, t: Tree): Tree
    requires c.In? && c.sibling.Bin?
  {
    Join(c.left, t, c.slot, c.red, c.sibling.(red := true))
  }

  lemma PassedUpOk(c: Ctx, t: Tree)
    requires Deficit(c, t) && !IsRed(t) && c.In? && c.sibling.Bin? && !c.sibling.red
    requires !IsRed(Near(c)) && !IsRed(Far(c))
    ensures Deficit(c.up, PassedUp(c, t))
  {
    var w := c.sibling.(red := true);
    assert Balanced(w) && NoRedRed(w) && BlackHeight(w) == BlackHeight(t);
    assert NoRedRed(t);
  }

  /** Only the near nephew is red: it rises above the sibling. */
  function NearRisen(c: Ctx): Ctx
    requires c.In? && c.sibling.Bin? && Near(c).Bin?
  {
    c.(sibling := RotateUp(c.left, Join(c.left, Near(c).(red := false), c.sibling.slot, true, Far(c))))
  }

  lemma NearRisenOk(c: Ctx, t: Tree)
    requires Deficit(c, t) && c.In? && c.sibling.Bin? && !c.sibling.red
    requires IsRed(Near(c)) && !IsRed(Far(c))
    ensures Deficit(NearRisen(c), t)
    ensures var w := NearRisen(c).sibling; w.Bin? && !w.red && IsRed(Far(NearRisen(c))) && w.slot == Near(c).slot
  {
    var y := Near(c);
    var w := NearRisen(c).sibling;
    assert Balanced(y) && NoRedRed(y) && BlackHeight(y) == BlackHeight(t);
    var below := Join(c.left, Sub(y, !c.left), c.sibling.slot, true, Far(c));
    assert Balanced(below) && NoRedRed(below) && BlackHeight(below) == BlackHeight(t);
    assert w == Join(c.left, Sub(y, c.left), y.slot, false, below);
  }

  /** The far nephew is red: the sibling rises, takes the parent's colour, and all is settled. */
  function FarRisen(c: Ctx, t: Tree): Tree
    requires c.In? && c.sibling.Bin? && Far(c).Bin?
  {
    Join(c.left, Join(c.left, t, c.slot, false, Near(c)), c.sibling.slot, c.red, Far(c).(red := false))
  }

  lemma FarRisenOk(c: Ctx, t: Tree)
    requires Deficit(c, t) && !IsRed(t) && c.In? && c.sibling.Bin? && !c.sibling.red && IsRed(Far(c))
    ensures Settled(Fill(c.up, FarRisen(c, t)))
    ensures FarRisen(c, t) == RotateUp(!c.left, Join(c.left, t, c.slot, false,
                                                     Join(c.left, Near(c), c.sibling.slot, c.red,
                                                         Far(c).(red := false))))
  {
    var p, f := Join(c.left, t, c.slot, false, Near(c)), Far(c).(red := false);
    assert Balanced(Near(c)) && Balanced(Far(c)) && NoRedRed(Near(c)) && NoRedRed(Far(c));
    assert Balanced(p) && NoRedRed(p) && BlackHeight(p) == BlackHeight(t) + 1;
    assert Balanced(f) && NoRedRed(f) && BlackHeight(f) == BlackHeight(t) + 1;
    var r := FarRisen(c, t);
    assert Balanced(r) && NoRedRed(r);
    FillBalanced(c.up, r);
    FillNoRedRed(c.up, r);
    NoRedRedSettled(Fill(c.up, r));
  }
}
