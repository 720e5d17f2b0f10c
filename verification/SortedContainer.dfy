/** The ordered containers: `threaded_rbtree_impl` over a growing vector of cells and elements. */
module SortedContainers {
  import opened Shape
  import opened Heights
  import opened Threads
  import opened PathStacks
  import opened Roots
  import opened Search
  import opened Ordering
  import opened SlotPool
  import opened Traversal
  import Insertion
  import Removal

  /** The root record, the vector of cells and elements, and the head of the free chain. */
  datatype Parts<K, V> = Parts(root: TreeRoot, nodes: seq<Cell>, elems: seq<(K, V)>, free: int)

  /** What the parts stand for: the tree, the free chain, and slots that are in neither. */
  datatype Shadow = Shadow(tree: Tree, chain: seq<nat>, lost: set<nat>)

  /** `TooLong` and `PathTooLong` are the two length errors an insertion can throw. */
  datatype Outcome = Inserted(slot: nat) | Present(slot: nat) | TooLong | PathTooLong

  /** The tree is threaded, red-black and sorted. */
  ghost predicate Coherent<K(!new), V>(less: (K, K) -> bool, unique: bool, p: Parts<K, V>, tree: Tree) {
    && StrictWeakOrder(less)
    && p.root.counted && p.root.ends && IsTree(p.nodes, p.root, tree)
    && |p.elems| == |p.nodes|
    && Sorted(less, p.elems, Inorder(tree))
    && (unique ==> KeysDiffer(less, p.elems, Inorder(tree)))
  }

  ghost predicate Whole<K(!new), V>(less: (K, K) -> bool, unique: bool, p: Parts<K, V>, g: Shadow) {
    Coherent(less, unique, p, g.tree) && PoolOk(p.nodes, |p.nodes|, p.free, g.chain, Slots(g.tree), g.lost)
  }

  /** The same with one more slot in use that is not in the tree yet. */
  ghost predicate Pending<K(!new), V>(less: (K, K) -> bool, unique: bool, p: Parts<K, V>, g: Shadow, index: nat) {
    && Coherent(less, unique, p, g.tree)
    && index < |p.nodes| && index !in Slots(g.tree)
    && PoolOk(p.nodes, |p.nodes|, p.free, g.chain, Slots(g.tree) + {index}, g.lost)
  }

  /** The elements in key order. */
  ghost function Listing<K, V>(p: Parts<K, V>, tree: Tree): seq<(K, V)>
    requires InRange(p.elems, Inorder(tree))
  {
    View(p.elems, Inorder(tree))
  }

  /** The elements by slot. */
  ghost function BySlot<K, V>(p: Parts<K, V>, tree: Tree): map<nat, (K, V)> { Held(p.elems, Slots(tree)) }

  // ---- What insertion and removal do to the listing.

  ghost predicate PutAt<E>(before: seq<E>, after: seq<E>, k: nat, x: E) {
    k <= |before| && after == before[..k] + [x] + before[k..]
  }

  ghost predicate TakenAt<E>(before: seq<E>, after: seq<E>, k: nat) {
    k < |before| && after == before[..k] + before[k + 1..]
  }

  lemma ViewPut<E>(elems: seq<E>, a: seq<nat>, x: nat, b: seq<nat>)
    requires InRange(elems, a + [x] + b)
    ensures InRange(elems, a + b) && x < |elems| && PutAt(View(elems, a + b), View(elems, a + [x] + b), |a|, elems[x])
  {
    var s, u := View(elems, a + [x] + b), a + [x] + b;
    assert u[|a|] == x;
    assert forall i :: 0 <= i < |b| ==> b[i] == u[|a| + 1 + i];
    assert forall i :: 0 <= i < |a| ==> a[i] == u[i];
    var r := View(elems, a + b);
    var t := r[..|a|] + [elems[x]] + r[|a|..];
    assert |t| == |s|;
    forall i | 0 <= i < |s| ensures s[i] == t[i] {
      if i < |a| {
        assert r[i] == elems[u[i]];
      } else if i > |a| {
        assert t[i] == r[i - 1] == elems[u[i]];
      }
    }
  }

  lemma ViewTaken<E>(elems: seq<E>, a: seq<nat>, x: nat, b: seq<nat>)
    requires InRange(elems, a + [x] + b)
    ensures InRange(elems, a + b) && TakenAt(View(elems, a + [x] + b), View(elems, a + b), |a|)
    ensures x < |elems| && View(elems, a + [x] + b)[|a|] == elems[x]
  {
    assert (a + [x] + b)[|a|] == x;
    assert forall i :: 0 <= i < |b| ==> b[i] == (a + [x] + b)[|a| + 1 + i];
    assert forall i :: 0 <= i < |a| ==> a[i] == (a + [x] + b)[i];
  }

  /** `k` elements come strictly before `key`, the others strictly after. */
  ghost predicate StrictlyAt<K, V>(less: (K, K) -> bool, s: seq<(K, V)>, k: nat, key: K) {
    && k <= |s|
    && (forall i :: 0 <= i < k ==> less(s[i].0, key))
    && (forall i :: k <= i < |s| ==> less(key, s[i].0))
  }

  /** None of the first `k` elements comes after `key`, none of the others before. */
  ghost predicate WeaklyAt<K, V>(less: (K, K) -> bool, s: seq<(K, V)>, k: nat, key: K) {
    && k <= |s|
    && (forall i :: 0 <= i < k ==> !less(key, s[i].0))
    && (forall i :: k <= i < |s| ==> !less(s[i].0, key))
  }

  ghost predicate Level<K>(less: (K, K) -> bool, a: K, b: K) {
    !less(a, b) && !less(b, a)
  }

  // ---- Insertion.

  /** The tree does not notice a new cell, nor a new element outside it. */
  lemma Unnoticed<K(!new), V>(less: (K, K) -> bool, unique: bool, p: Parts<K, V>, p': Parts<K, V>, tree: Tree)
    requires Coherent(less, unique, p, tree)
    requires p'.root == p.root && |p'.elems| == |p'.nodes| && SameOn(p.nodes, p'.nodes, Slots(tree))
    requires forall i :: i in Slots(tree) && i < |p.elems| ==> p'.elems[i] == p.elems[i]
    ensures Coherent(less, unique, p', tree) && Listing(p', tree) == Listing(p, tree)
    ensures BySlot(p', tree) == BySlot(p, tree)
  {
    RepFrame(p.nodes, p'.nodes, tree, NIL, NIL);
    var s := Inorder(tree);
    SlotsAreInorder(tree);
    assert forall i :: 0 <= i < |s| ==> s[i] in Slots(tree);
    assert forall i :: 0 <= i < |s| ==> p'.elems[s[i]] == p.elems[s[i]];
    ViewFrame(p.elems, p'.elems, s);
  }

  /** The slot's place is the hole of `c`. */
  ghost predicate Belongs<K, V>(less: (K, K) -> bool, unique: bool, elems: seq<(K, V)>, c: Ctx, index: nat) {
    && index < |elems|
    && (forall y :: y in Before(c) ==> SlotLess(less, elems, y, index))
    && (forall y :: y in After(c) ==> SlotLess(less, elems, index, y))
    && (unique ==> forall y :: y in Before(c) && y < |elems| ==> less(elems[y].0, elems[index].0))
    && (unique ==> forall y :: y in After(c) && y < |elems| ==> less(elems[index].0, elems[y].0))
  }

  /** A key strictly between two runs of keys gives the slot its place between the runs. */
  lemma BetweenKeys<K(!new), V>(less: (K, K) -> bool, unique: bool, elems: seq<(K, V)>, elems': seq<(K, V)>, c: Ctx,
      index: nat)
    requires StrictWeakOrder(less) && Sorted(less, elems, Inorder(Fill(c, Nil))) && index < |elems'| &&
        |elems| <= |elems'|
    requires Between(c, BelowKey(less, elems, elems'[index].0), AboveKey(less, elems, elems'[index].0))
    requires forall i :: i in Slots(Fill(c, Nil)) && i < |elems| ==> elems'[i] == elems[i]
    ensures Belongs(less, unique, elems', c, index)
  {
    FillSlots(c, Nil);
    CtxSlotsAreInorder(c);
  }

  /** A slot goes after the slots it is not before. */
  lemma BetweenSlots<K(!new), V>(less: (K, K) -> bool, elems: seq<(K, V)>, c: Ctx, index: nat)
    requires StrictWeakOrder(less) && Sorted(less, elems, Inorder(Fill(c, Nil))) && index < |elems|
    requires Splits(c, NotF(AboveSlot(less, elems, index))) && index !in Slots(Fill(c, Nil))
    ensures Belongs(less, false, elems, c, index)
  {
    var s := Inorder(Fill(c, Nil));
    SlotsAreInorder(Fill(c, Nil));
    FillInorder(c, Nil);
    forall y | y in Before(c) ensures SlotLess(less, elems, y, index) {
      assert y in s;
      SlotLessTotal(less, elems, y, index);
    }
  }

  lemma CtxStrictlyAt<K, V>(less: (K, K) -> bool, elems: seq<(K, V)>, c: Ctx, key: K)
    requires InRange(elems, Inorder(Fill(c, Nil)))
    requires Between(c, BelowKey(less, elems, key), AboveKey(less, elems, key))
    ensures StrictlyAt(less, View(elems, Inorder(Fill(c, Nil))), |Before(c)|, key)
  {
    FillInorder(c, Nil);
    var s := Inorder(Fill(c, Nil));
    assert s == Before(c) + After(c);
    assert forall i :: 0 <= i < |Before(c)| ==> s[i] == Before(c)[i] && s[i] in Before(c);
    assert forall i :: |Before(c)| <= i < |s| ==> s[i] == After(c)[i - |Before(c)|] && s[i] in After(c);
  }

  lemma CtxWeaklyAt<K(!new), V>(less: (K, K) -> bool, elems: seq<(K, V)>, c: Ctx, index: nat)
    requires StrictWeakOrder(less) && InRange(elems, Inorder(Fill(c, Nil))) && index < |elems|
    requires Belongs(less, false, elems, c, index)
    ensures WeaklyAt(less, View(elems, Inorder(Fill(c, Nil))), |Before(c)|, elems[index].0)
  {
    FillInorder(c, Nil);
    var s, key := Inorder(Fill(c, Nil)), elems[index].0;
    assert s == Before(c) + After(c);
    forall i | 0 <= i < |s| ensures if i < |Before(c)| then !less(key, elems[s[i]].0) else !less(elems[s[i]].0, key) {
      assert i < |Before(c)| ==> s[i] == Before(c)[i] && s[i] in Before(c);
      assert i >= |Before(c)| ==> s[i] == After(c)[i - |Before(c)|] && s[i] in After(c);
      assert OrderedAt(less, key, elems[s[i]].0, key) && OrderedAt(less, elems[s[i]].0, key, elems[s[i]].0);
    }
  }

  lemma InsertedSlots(c: Ctx, index: nat, t: Tree)
    requires Inorder(t) == Before(c) + [index] + After(c)
    ensures Slots(t) == CtxSlots(c) + {index}
  {
    SlotsAreInorder(t);
    CtxSlotsAreInorder(c);
  }

  /** The tree after an insertion in the hole of `c` is coherent again. */
  lemma InsertedCoherent<K(!new), V>(less: (K, K) -> bool, unique: bool, p: Parts<K, V>, p': Parts<K, V>, c: Ctx,
      index: nat, t: Tree)
    requires Coherent(less, unique, p, Fill(c, Nil)) && |p'.nodes| == |p.nodes| && p'.elems == p.elems
    requires IsTree(p'.nodes, p'.root, t) && p'.root.counted && p'.root.ends &&
        Inorder(t) == Before(c) + [index] + After(c)
    requires Belongs(less, unique, p.elems, c, index)
    ensures Coherent(less, unique, p', t) &&
        PutAt(Listing(p, Fill(c, Nil)), Listing(p', t), |Before(c)|, p.elems[index])
  {
    FillInorder(c, Nil);
    assert Before(c) + Inorder(Nil) + After(c) == Before(c) + After(c);
    InsertSorted(less, p.elems, Before(c), index, After(c));
    if unique { InsertDiffer(less, p.elems, Before(c), index, After(c)); }
    ViewPut(p.elems, Before(c), index, After(c));
  }

  /** Takes a slot and constructs the element in it. */
  method AllocIndex<K(!new), V>(less: (K, K) -> bool, unique: bool, p: Parts<K, V>, x: (K, V), ghost g: Shadow)
    returns (p': Parts<K, V>, index: nat, ghost g': Shadow)
    requires Whole(less, unique, p, g)
    ensures Pending(less, unique, p', g', index) && index < |p'.elems| && p'.elems[index] == x && index !in g.lost
    ensures g' == g.(chain := g'.chain) && p'.root == p.root && index == NewSlot(p.nodes, p.free)
    ensures |p'.nodes| == |p.nodes| + if g.chain == [] then 1 else 0
    ensures Listing(p', g.tree) == Listing(p, g.tree)
    ensures forall i :: i in Slots(g.tree) && i < |p.elems| ==> p'.elems[i] == p.elems[i]
  {
    var nodes, elems, free;
    ghost var chain;
    nodes, elems, free, index, chain := Alloc(p.nodes, p.elems, p.free, x, g.chain, Slots(g.tree), g.lost);
    p', g' := Parts(p.root, nodes, elems, free), g.(chain := chain);
    Unnoticed(less, unique, p, p', g.tree);
  }

  lemma BySlotAdd<K(!new), V>(less: (K, K) -> bool, unique: bool, p: Parts<K, V>, p': Parts<K, V>, tree: Tree,
      index: nat)
    requires Coherent(less, unique, p, tree) && |p.elems| <= |p'.elems| && index < |p'.elems|
    requires forall i :: i in Slots(tree) && i < |p.elems| ==> p'.elems[i] == p.elems[i]
    ensures Held(p'.elems, Slots(tree) + {index}) == BySlot(p, tree)[index := p'.elems[index]]
    ensures BySlot(p', tree) == BySlot(p, tree)
  {
    RepInPool(p.nodes, tree, NIL, NIL);
    HeldAdd(p.elems, p'.elems, Slots(tree), index);
  }

  /** Links the slot `index` into the hole the stack leads to. */
  method LinkIn<K(!new), V>(less: (K, K) -> bool, unique: bool, p: Parts<K, V>, stack: PathStack, index: nat,
      ghost c: Ctx, ghost g: Shadow)
    returns (p': Parts<K, V>, ghost g': Shadow)
    requires Pending(less, unique, p, g, index) && g.tree == Fill(c, Nil)
    requires stack.height <= stack.entries.Length && OnStack(c, stack.entries[..], stack.height)
    requires Belongs(less, unique, p.elems, c, index)
    ensures Whole(less, unique, p', g')
    ensures |p'.nodes| == |p.nodes| && Slots(g'.tree) == Slots(g.tree) + {index} && g'.lost == g.lost
    ensures PutAt(Listing(p, g.tree), Listing(p', g'.tree), |Before(c)|, p.elems[index])
    ensures p'.elems == p.elems
  {
    FillSlots(c, Nil);
    var root, nodes;
    ghost var t;
    root, nodes, t := Insertion.Insert(p.root, p.nodes, stack, index, c);
    p', g' := p.(root := root, nodes := nodes), g.(tree := t);
    InsertedCoherent(less, unique, p, p', c, index, t);
    InsertedSlots(c, index, t);
    PoolFrame(p.nodes, nodes, |nodes|, p.free, g.chain, Slots(t), g.lost);
  }

  /** Allocates a slot for `x` and links it in between smaller and greater keys. */
  method AddBetween<K(!new), V>(less: (K, K) -> bool, unique: bool, p: Parts<K, V>, stack: PathStack, x: (K, V),
      ghost c: Ctx, ghost g: Shadow)
    returns (p': Parts<K, V>, index: nat, ghost g': Shadow)
    requires Whole(less, unique, p, g) && g.tree == Fill(c, Nil)
    requires stack.height <= stack.entries.Length && OnStack(c, stack.entries[..], stack.height)
    requires Between(c, BelowKey(less, p.elems, x.0), AboveKey(less, p.elems, x.0))
    ensures Whole(less, unique, p', g') && g'.lost == g.lost
    ensures |p'.nodes| == |p.nodes| + if g.chain == [] then 1 else 0
    ensures index !in Slots(g.tree) && Slots(g'.tree) == Slots(g.tree) + {index}
    ensures PutAt(Listing(p, g.tree), Listing(p', g'.tree), |Before(c)|, x)
    ensures BySlot(p', g'.tree) == BySlot(p, g.tree)[index := x]
  {
    p', index, g' := AllocIndex(less, unique, p, x, g);
    BySlotAdd(less, unique, p, p', g.tree, index);
    BetweenKeys(less, unique, p.elems, p'.elems, c, index);
    p', g' := LinkIn(less, unique, p', stack, index, c, g');
  }

  /** Insertion among different keys: the path first, then the slot. */
  method InsertUnique<K(!new), V>(less: (K, K) -> bool, maxDepth: nat, p: Parts<K, V>, x: (K, V), ghost g: Shadow)
    returns (p': Parts<K, V>, out: Outcome, ghost g': Shadow, ghost k: nat)
    requires Whole(less, true, p, g)
    ensures Whole(less, true, p', g') && g'.lost == g.lost && !out.TooLong?
    ensures |p'.nodes| <= |p.nodes| + if g.chain == [] then 1 else 0
    ensures out.Inserted? ==>
      PutAt(Listing(p, g.tree), Listing(p', g'.tree), k, x) && StrictlyAt(less, Listing(p, g.tree), k, x.0)
    ensures out.Inserted? ==> out.slot !in Slots(g.tree) && Slots(g'.tree) == Slots(g.tree) + {out.slot}
    ensures out.Inserted? ==> BySlot(p', g'.tree) == BySlot(p, g.tree)[out.slot := x]
    ensures out.Present? ==> out.slot in Slots(g.tree) && out.slot < |p.elems| && Level(less, p.elems[out.slot].0, x.0)
    ensures !out.Inserted? ==> p' == p && g' == g
    ensures out.PathTooLong? <==> UniquePathLength(g.tree, BelowKey(less, p.elems, x.0),
        AboveKey(less, p.elems, x.0)) > maxDepth
  {
    var stack := new PathStack(maxDepth);
    var below, above := BelowKey(less, p.elems, x.0), AboveKey(less, p.elems, x.0);
    KeyCut(less, p.elems, Inorder(g.tree), x.0);
    ghost var c, t;
    var ok, found;
    ok, found, c, t := FindPathForUnique(p.nodes, p.root.root, stack, below, above, g.tree);
    p', g', k := p, g, |Before(c)|;
    if !ok {
      out := PathTooLong;
    } else if found {
      SlotsAreInorder(g.tree);
      out := Present(stack.entries[stack.height - 1].slot);
    } else {
      CtxStrictlyAt(less, p.elems, c, x.0);
      var index;
      p', index, g' := AddBetween(less, true, p, stack, x, c, g);
      out := Inserted(index);
    }
  }

  /** The path to the place of a new slot, told before the slot is there. */
  lemma NewPath<K(!new), V>(less: (K, K) -> bool, p: Parts<K, V>, p': Parts<K, V>, tree: Tree, x: (K, V), index: nat)
    requires Coherent(less, false, p, tree) && |p.elems| <= |p'.elems| && index < |p'.elems| && p'.elems[index] == x
    requires forall i :: i in Slots(tree) && i < |p.elems| ==> p'.elems[i] == p.elems[i]
    ensures PathLength(tree, AboveSlot(less, p'.elems, index)) == PathLength(tree, AboveNew(less, p.elems, x.0, index))
  {
    RepInPool(p.nodes, tree, NIL, NIL);
    PathLengthSame(tree, AboveSlot(less, p'.elems, index), AboveNew(less, p.elems, x.0, index));
  }

  /** Insertion among equivalent keys: the slot first, then the path.  If the path is too long for the
      stack, the slot is neither in the tree nor in the free chain afterwards. */
  method InsertMulti<K(!new), V>(less: (K, K) -> bool, maxDepth: nat, p: Parts<K, V>, x: (K, V), ghost g: Shadow)
    returns (p': Parts<K, V>, out: Outcome, ghost g': Shadow, ghost k: nat)
    requires Whole(less, false, p, g)
    ensures Whole(less, false, p', g') && (out.Inserted? || out.PathTooLong?)
    ensures |p'.nodes| == |p.nodes| + if g.chain == [] then 1 else 0
    ensures out.Inserted? ==>
      g'.lost == g.lost && out.slot !in Slots(g.tree) && Slots(g'.tree) == Slots(g.tree) + {out.slot}
    ensures out.Inserted? ==>
      PutAt(Listing(p, g.tree), Listing(p', g'.tree), k, x) && WeaklyAt(less, Listing(p, g.tree), k, x.0)
    ensures out.Inserted? ==> BySlot(p', g'.tree) == BySlot(p, g.tree)[out.slot := x]
    ensures out.PathTooLong? ==> g'.tree == g.tree && Listing(p', g'.tree) == Listing(p, g.tree)
    ensures out.PathTooLong? ==> BySlot(p', g'.tree) == BySlot(p, g.tree) && |g'.lost| == |g.lost| + 1
    ensures out.PathTooLong? <==> PathLength(g.tree, AboveNew(less, p.elems, x.0, NewSlot(p.nodes, p.free))) > maxDepth
  {
    var stack := new PathStack(maxDepth);
    var index;
    p', index, g' := AllocIndex(less, false, p, x, g);
    k := 0;
    SlotCut(less, p'.elems, Inorder(g.tree), index);
    var above := AboveSlot(less, p'.elems, index);
    NewPath(less, p, p', g.tree, x, index);
    BySlotAdd(less, false, p, p', g.tree, index);
    ghost var c;
    var ok;
    ok, c := FindPathForMulti(p'.nodes, p'.root.root, stack, above, g.tree);
    if !ok {
      PoolLose(p'.nodes, |p'.nodes|, p'.free, g'.chain, Slots(g.tree), g.lost, index);
      g' := g'.(lost := g.lost + {index});
      return p', PathTooLong, g', k;
    }
    k := |Before(c)|;
    BetweenSlots(less, p'.elems, c, index);
    CtxWeaklyAt(less, p'.elems, c, index);
    p', g' := LinkIn(less, false, p', stack, index, c, g');
    out := Inserted(index);
  }

  /** The effect of an insertion, outcome by outcome. */
  ghost predicate InsertEffect<K(!new), V>(less: (K, K) -> bool, unique: bool, maxDepth: nat, x: (K, V),
      out: Outcome, k: nat, p: Parts<K, V>, g: Shadow, p': Parts<K, V>, g': Shadow)
    requires Whole(less, unique, p, g) && Whole(less, unique, p', g')
  {
    match out
    case Inserted(slot) =>
      && PutAt(Listing(p, g.tree), Listing(p', g'.tree), k, x)
      && (if unique then StrictlyAt(less, Listing(p, g.tree), k, x.0) else WeaklyAt(less, Listing(p, g.tree), k, x.0))
      && slot !in Slots(g.tree) && Slots(g'.tree) == Slots(g.tree) + {slot} && g'.lost == g.lost
      && BySlot(p', g'.tree) == BySlot(p, g.tree)[slot := x]
    case Present(slot) =>
      && unique && p' == p && g' == g
      && slot in Slots(g.tree) && slot < |p.elems| && Level(less, p.elems[slot].0, x.0)
    case TooLong => p' == p && g' == g
    case PathTooLong =>
      && !Fits(|Inorder(g.tree)|, maxDepth)
      && Listing(p', g'.tree) == Listing(p, g.tree) && g'.tree == g.tree && BySlot(p', g'.tree) == BySlot(p, g.tree)
      && (if unique then p' == p && g' == g else |g'.lost| == |g.lost| + 1)
  }

  /** Insertion: the size check, then one of the two ways. */
  method InsertInto<K(!new), V>(less: (K, K) -> bool, unique: bool, maxDepth: nat, maxSize: nat, p: Parts<K, V>,
      x: (K, V), ghost g: Shadow)
    returns (p': Parts<K, V>, out: Outcome, ghost g': Shadow, ghost k: nat)
    requires Whole(less, unique, p, g) && |p.nodes| < maxSize + |g.lost|
    ensures Whole(less, unique, p', g') && |p'.nodes| < maxSize + |g'.lost|
    ensures out.TooLong? <==> p.root.count >= maxSize - 1
    ensures InsertEffect(less, unique, maxDepth, x, out, k, p, g, p', g')
  {
    SlotCount(less, unique, p, g);
    if p.root.count >= maxSize - 1 {
      return p, TooLong, g, 0;
    }
    if Fits(|Inorder(g.tree)|, maxDepth) { FitsHeight(less, unique, p, g, maxDepth); }
    if unique {
      UniquePathLengthBound(g.tree, BelowKey(less, p.elems, x.0), AboveKey(less, p.elems, x.0));
      p', out, g', k := InsertUnique(less, maxDepth, p, x, g);
    } else {
      PathLengthBound(g.tree, AboveNew(less, p.elems, x.0, NewSlot(p.nodes, p.free)));
      p', out, g', k := InsertMulti(less, maxDepth, p, x, g);
    }
  }

  // ---- Removal.

  /** The tree after the removal of `t.slot` is coherent again. */
  lemma RemovedCoherent<K(!new), V>(less: (K, K) -> bool, unique: bool, p: Parts<K, V>, p': Parts<K, V>, c: Ctx,
      t: Tree, u: Tree)
    requires t.Bin? && Coherent(less, unique, p, Fill(c, t)) && |p'.nodes| == |p.nodes| && p'.elems == p.elems
    requires IsTree(p'.nodes, p'.root, u) && p'.root.counted && p'.root.ends
    requires Inorder(u) == (Before(c) + Inorder(t.left)) + (Inorder(t.right) + After(c))
    ensures Coherent(less, unique, p', u)
    ensures Slots(u) == Slots(Fill(c, t)) - {t.slot}
  {
    var a, b := Before(c) + Inorder(t.left), Inorder(t.right) + After(c);
    NodeInOrder(c, t);
    RemoveSorted(less, p.elems, a, t.slot, b);
    DistinctInorder(Fill(c, t));
    RemovedSlots(a, t.slot, b, Fill(c, t), u);
  }

  lemma RemovedListing<K, V>(p: Parts<K, V>, tree: Tree, p': Parts<K, V>, u: Tree, a: seq<nat>, x: nat, b: seq<nat>)
    requires InRange(p.elems, Inorder(tree)) && p'.elems == p.elems
    requires Inorder(tree) == a + [x] + b && Inorder(u) == a + b
    ensures InRange(p'.elems, Inorder(u)) && TakenAt(Listing(p, tree), Listing(p', u), |a|)
    ensures x < |p.elems| && Listing(p, tree)[|a|] == p.elems[x]
  {
    ViewTaken(p.elems, a, x, b);
  }

  lemma RemovedSlots(a: seq<nat>, x: nat, b: seq<nat>, t: Tree, u: Tree)
    requires Inorder(t) == a + [x] + b && Inorder(u) == a + b && NoDuplicates(a + [x] + b)
    ensures Slots(u) == Slots(t) - {x}
  {
    SlotsAreInorder(t);
    SlotsAreInorder(u);
    NoDuplicatesSplit(a + [x], b);
    NoDuplicatesSplit(a, [x]);
    assert x in a + [x];
  }

  /** Exactly the element in `slot`, the `k`-th in order, is gone, and every other slot keeps its element. */
  ghost predicate ErasedAt<K, V>(p: Parts<K, V>, tree: Tree, p': Parts<K, V>, tree': Tree, k: nat, slot: nat)
    requires InRange(p.elems, Inorder(tree)) && InRange(p'.elems, Inorder(tree'))
  {
    && TakenAt(Listing(p, tree), Listing(p', tree'), k)
    && slot < |p.elems| && Listing(p, tree)[k] == p.elems[slot]
    && Slots(tree') == Slots(tree) - {slot} && p'.elems == p.elems
  }

  /** Removes the node on top of the stack and puts its slot at the head of the free chain. */
  method Unlink<K(!new), V>(less: (K, K) -> bool, unique: bool, p: Parts<K, V>, stack: PathStack, ghost c: Ctx,
      ghost t: Tree, ghost g: Shadow)
    returns (p': Parts<K, V>, ghost g': Shadow)
    requires Whole(less, unique, p, g) && g.tree == Fill(c, t) && t.Bin?
    requires 0 < stack.height <= stack.entries.Length && stack.height <= stack.reach
    requires OnStack(c, stack.entries[..], stack.height - 1) && stack.entries[stack.height - 1] == Entry(t.slot, false)
    requires Removal.StackNeeded(c, t) <= stack.entries.Length
    modifies stack`reach, stack.entries
    ensures Whole(less, unique, p', g')
    ensures |p'.nodes| == |p.nodes| && g'.lost == g.lost
    ensures ErasedAt(p, g.tree, p', g'.tree, |Before(c)| + |Inorder(t.left)|, t.slot)
  {
    var index := stack.entries[stack.height - 1].slot;
    var root, nodes;
    ghost var u;
    root, nodes, u := Removal.Remove(p.root, p.nodes, stack, c, t);
    p' := p.(root := root, nodes := nodes);
    RemovedCoherent(less, unique, p, p', c, t, u);
    NodeInOrder(c, t);
    RemovedListing(p, g.tree, p', u, Before(c) + Inorder(t.left), t.slot, Inorder(t.right) + After(c));
    FillSlots(c, t);
    PoolFrame(p.nodes, nodes, |nodes|, p.free, g.chain, Slots(g.tree), g.lost);
    PoolGive(nodes, |nodes|, p.free, g.chain, Slots(g.tree), g.lost, index);
    ghost var before := p';
    p' := p'.(nodes := SetLink(nodes, index, true, p.free), free := index);
    g' := Shadow(u, [index] + g.chain, g.lost);
    Unnoticed(less, unique, before, p', u);
  }

  /** The same for a path that has been found to fit. */
  method UnlinkFitting<K(!new), V>(less: (K, K) -> bool, unique: bool, p: Parts<K, V>, stack: PathStack, ghost c: Ctx,
      ghost t: Tree, ghost g: Shadow)
    returns (p': Parts<K, V>, ghost g': Shadow, ghost k: nat, ghost slot: nat)
    requires Whole(less, unique, p, g) && g.tree == Fill(c, t) && t.Bin?
    requires Secure(g.tree, t.slot, stack.entries.Length)
    requires 0 < stack.height <= stack.entries.Length && stack.height <= stack.reach
    requires OnStack(c, stack.entries[..], stack.height - 1) && stack.entries[stack.height - 1] == Entry(t.slot, false)
    modifies stack`reach, stack.entries
    ensures Whole(less, unique, p', g')
    ensures |p'.nodes| == |p.nodes| && g'.lost == g.lost
    ensures ErasedAt(p, g.tree, p', g'.tree, k, slot) && slot == t.slot
  {
    OnStackDepth(c, stack.entries[..], stack.height - 1);
    p', g' := Unlink(less, unique, p, stack, c, t, g);
    k, slot := |Before(c)| + |Inorder(t.left)|, t.slot;
  }

  lemma NoneLevel<K(!new), V>(less: (K, K) -> bool, p: Parts<K, V>, c: Ctx, key: K)
    requires InRange(p.elems, Inorder(Fill(c, Nil)))
    requires Between(c, BelowKey(less, p.elems, key), AboveKey(less, p.elems, key))
    ensures forall i :: 0 <= i < |Listing(p, Fill(c, Nil))| ==> !Level(less, Listing(p, Fill(c, Nil))[i].0, key)
  {
    CtxStrictlyAt(less, p.elems, c, key);
  }

  /** Few enough elements for every removal whose path fits on the stack to stay inside it. */
  predicate Spacious(n: nat, depth: nat) { n < MinNodes(depth + 2) }

  lemma FitsSpacious(n: nat, depth: nat)
    requires Fits(n, depth)
    ensures Spacious(n, depth)
  {
    MinNodesMonotone(depth + 1, depth + 2);
  }

  lemma SpaciousNeeds(c: Ctx, t: Tree, depth: nat)
    requires t.Bin? && RedBlack(Fill(c, t)) && Spacious(|Inorder(Fill(c, t))|, depth) && Depth(c) + 1 <= depth
    ensures Removal.StackNeeded(c, t) <= depth
  {
    HeightBound(Fill(c, t), depth + 1);
    Removal.NeededByHeight(c, t);
  }

  /** Removing `slot`, if its path fits on the stack, stays inside it. */
  ghost predicate Secure(tree: Tree, slot: nat, depth: nat) {
    forall c, t: Tree {:trigger Removal.StackNeeded(c, t)} ::
      t.Bin? && t.slot == slot && Fill(c, t) == tree && Depth(c) + 1 <= depth ==> Removal.StackNeeded(c, t) <= depth
  }

  lemma SpaciousSecure(tree: Tree, slot: nat, depth: nat)
    requires RedBlack(tree) && Spacious(|Inorder(tree)|, depth)
    ensures Secure(tree, slot, depth)
  {
    forall c, t: Tree | t.Bin? && t.slot == slot && Fill(c, t) == tree && Depth(c) + 1 <= depth
      ensures Removal.StackNeeded(c, t) <= depth
    {
      SpaciousNeeds(c, t, depth);
    }
  }

  /** The same for every element level with `key`. */
  ghost predicate SecureKey<K, V>(less: (K, K) -> bool, p: Parts<K, V>, tree: Tree, key: K, depth: nat) {
    forall i :: i in Matching(less, BySlot(p, tree), key) ==> Secure(tree, i, depth)
  }

  lemma SpaciousSecureKey<K, V>(less: (K, K) -> bool, p: Parts<K, V>, tree: Tree, key: K, depth: nat)
    requires RedBlack(tree) && Spacious(|Inorder(tree)|, depth)
    ensures SecureKey(less, p, tree, key, depth)
  {
    forall i | i in Matching(less, BySlot(p, tree), key) ensures Secure(tree, i, depth) {
      SpaciousSecure(tree, i, depth);
    }
  }

  /** The path to an element level with `key`. */
  method PathToKey<K(!new), V>(less: (K, K) -> bool, unique: bool, stack: PathStack, p: Parts<K, V>, key: K,
      ghost g: Shadow)
    returns (ok: bool, found: bool, ghost c: Ctx, ghost t: Tree)
    requires Whole(less, unique, p, g)
    modifies stack, stack.entries
    ensures ok <==> UniquePathLength(g.tree, BelowKey(less, p.elems, key),
        AboveKey(less, p.elems, key)) <= stack.entries.Length
    ensures ok ==> Fill(c, t) == g.tree && stack.height <= stack.reach
    ensures ok && found ==> 0 < stack.height <= stack.entries.Length && OnStack(c, stack.entries[..], stack.height - 1)
    ensures ok && found ==> t.Bin? && stack.entries[stack.height - 1] == Entry(t.slot, false)
    ensures ok && found ==> t.slot < |p.elems| && Level(less, p.elems[t.slot].0, key)
    ensures ok && found ==> t.slot in Matching(less, BySlot(p, g.tree), key)
    ensures ok && !found ==> forall i :: 0 <= i < |Listing(p, g.tree)| ==> !Level(less, Listing(p, g.tree)[i].0, key)
  {
    var below, above := BelowKey(less, p.elems, key), AboveKey(less, p.elems, key);
    KeyCut(less, p.elems, Inorder(g.tree), key);
    ok, found, c, t := FindPathForUnique(p.nodes, p.root.root, stack, below, above, g.tree);
    if ok && !found {
      NoneLevel(less, p, c, key);
    } else if ok {
      FillSlots(c, t);
    }
  }

  /** The path to a slot of a sorted tree. */
  method PathToSlot<K(!new), V>(less: (K, K) -> bool, nodes: seq<Cell>, elems: seq<(K, V)>, root: int,
      stack: PathStack, slot: nat, ghost u: Tree)
    returns (ok: bool, ghost c: Ctx, ghost t: Tree)
    requires StrictWeakOrder(less) && Holds(nodes, root, u) && Sorted(less, elems, Inorder(u)) && slot in Slots(u)
    modifies stack, stack.entries
    ensures Height(u) <= stack.entries.Length ==> ok
    ensures ok ==> Fill(c, t) == u && t.Bin? && t.slot == slot && stack.height <= stack.reach
    ensures ok ==> 0 < stack.height <= stack.entries.Length && OnStack(c, stack.entries[..], stack.height - 1)
    ensures ok ==> stack.entries[stack.height - 1] == Entry(slot, false)
    ensures ok <==> UniquePathLength(u, BelowSlot(less, elems, slot),
        AboveSlot(less, elems, slot)) <= stack.entries.Length
  {
    SlotsAreInorder(u);
    ghost var s := Inorder(u);
    ghost var at :| 0 <= at < |s| && s[at] == slot;
    var below, above := BelowSlot(less, elems, slot), AboveSlot(less, elems, slot);
    SlotCut(less, elems, s, slot);
    UniquePathLengthBound(u, below, above);
    SlotLessTotal(less, elems, slot, slot);
    var found;
    ok, found, c, t := FindPathForUnique(nodes, root, stack, below, above, u);
    if ok {
      assert found by {
        if !found { NothingLevel(c, below, above); }
      }
      SlotLessTotal(less, elems, slot, t.slot);
    }
  }

  /** The path to what is to be removed may be too long for the stack. */
  datatype Erasure = Erased | Absent | NoPath

  /** Removes one element level with `key`, if there is one. */
  method EraseOne<K(!new), V>(less: (K, K) -> bool, unique: bool, maxDepth: nat, p: Parts<K, V>, key: K,
      ghost g: Shadow)
    returns (p': Parts<K, V>, out: Erasure, ghost g': Shadow, ghost k: nat, ghost slot: nat)
    requires Whole(less, unique, p, g) && SecureKey(less, p, g.tree, key, maxDepth)
    ensures Whole(less, unique, p', g') && |p'.nodes| == |p.nodes| && g'.lost == g.lost
    ensures out.NoPath? <==> UniquePathLength(g.tree, BelowKey(less, p.elems, key),
        AboveKey(less, p.elems, key)) > maxDepth
    ensures out.Erased? ==> ErasedAt(p, g.tree, p', g'.tree, k, slot) && Level(less, p.elems[slot].0, key)
    ensures !out.Erased? ==> p' == p && g' == g
    ensures out.Absent? ==> forall i :: 0 <= i < |Listing(p, g.tree)| ==> !Level(less, Listing(p, g.tree)[i].0, key)
  {
    var stack := new PathStack(maxDepth);
    ghost var c, t;
    var ok, found;
    ok, found, c, t := PathToKey(less, unique, stack, p, key, g);
    if !ok || !found {
      return p, if ok then Absent else NoPath, g, 0, 0;
    }
    p', g', k, slot := UnlinkFitting(less, unique, p, stack, c, t, g);
    out := Erased;
  }

  /** Removes exactly the element in `slot`. */
  method EraseSlot<K(!new), V>(less: (K, K) -> bool, unique: bool, maxDepth: nat, p: Parts<K, V>, slot: nat,
      ghost g: Shadow)
    returns (p': Parts<K, V>, ok: bool, ghost g': Shadow, ghost k: nat)
    requires Whole(less, unique, p, g) && slot in Slots(g.tree) && Secure(g.tree, slot, maxDepth)
    ensures Whole(less, unique, p', g') && |p'.nodes| == |p.nodes| && g'.lost == g.lost
    ensures ok <==> UniquePathLength(g.tree, BelowSlot(less, p.elems, slot), AboveSlot(less, p.elems, slot)) <= maxDepth
    ensures ok ==> ErasedAt(p, g.tree, p', g'.tree, k, slot)
    ensures !ok ==> p' == p && g' == g
  {
    var stack := new PathStack(maxDepth);
    ghost var c, t;
    ok, c, t := PathToSlot(less, p.nodes, p.elems, p.root.root, stack, slot, g.tree);
    if !ok {
      return p, false, g, 0;
    }
    ghost var at;
    p', g', k, at := UnlinkFitting(less, unique, p, stack, c, t, g);
  }

  // ---- Removal of all level elements.

  function Without<K, V>(less: (K, K) -> bool, s: seq<(K, V)>, key: K): (r: seq<(K, V)>)
    ensures |r| <= |s|
  {
    if s == [] then []
    else if !less(s[0].0, key) && !less(key, s[0].0) then Without(less, s[1..], key)
    else [s[0]] + Without(less, s[1..], key)
  }

  lemma {:induction false} WithoutConcat<K, V>(less: (K, K) -> bool, a: seq<(K, V)>, b: seq<(K, V)>, key: K)
    ensures Without(less, a + b, key) == Without(less, a, key) + Without(less, b, key)
  {
    if a == [] {
      assert a + b == b;
    } else {
      assert (a + b)[1..] == a[1..] + b;
      WithoutConcat(less, a[1..], b, key);
    }
  }

  lemma WithoutTaken<K, V>(less: (K, K) -> bool, s: seq<(K, V)>, s': seq<(K, V)>, k: nat, key: K)
    requires TakenAt(s, s', k) && Level(less, s[k].0, key)
    ensures Without(less, s', key) == Without(less, s, key)
  {
    assert s == s[..k] + ([s[k]] + s[k + 1..]);
    WithoutConcat(less, s[..k], s[k + 1..], key);
    WithoutConcat(less, s[..k], [s[k]] + s[k + 1..], key);
    assert ([s[k]] + s[k + 1..])[1..] == s[k + 1..];
  }

  lemma {:induction false} WithoutNone<K, V>(less: (K, K) -> bool, s: seq<(K, V)>, key: K)
    requires forall i :: 0 <= i < |s| ==> !Level(less, s[i].0, key)
    ensures Without(less, s, key) == s
  {
    if s == [] {
    } else {
      assert forall i :: 0 <= i < |s| - 1 ==> s[1..][i] == s[i + 1];
      WithoutNone(less, s[1..], key);
    }
  }

  lemma FitsHeight<K(!new), V>(less: (K, K) -> bool, unique: bool, p: Parts<K, V>, g: Shadow, maxDepth: nat)
    requires Whole(less, unique, p, g) && Fits(|Inorder(g.tree)|, maxDepth)
    ensures Height(g.tree) <= maxDepth
  {
    HeightBound(g.tree, maxDepth);
  }

  /** Among different keys at most one is level with `key`. */
  lemma OnlyOne<K(!new), V>(less: (K, K) -> bool, p: Parts<K, V>, tree: Tree, p': Parts<K, V>, tree': Tree, k: nat,
      slot: nat, key: K)
    requires StrictWeakOrder(less) && InRange(p.elems, Inorder(tree)) && InRange(p'.elems, Inorder(tree'))
    requires KeysDiffer(less, p.elems, Inorder(tree))
    requires ErasedAt(p, tree, p', tree', k, slot) && Level(less, p.elems[slot].0, key)
    ensures forall i :: 0 <= i < |Listing(p', tree')| ==> !Level(less, Listing(p', tree')[i].0, key)
  {
    var s, s', t := Listing(p, tree), Listing(p', tree'), Inorder(tree);
    forall i | 0 <= i < |s'| ensures !Level(less, s'[i].0, key) {
      var j := if i < k then i else i + 1;
      assert s'[i] == s[j] && s[j] == p.elems[t[j]] && s[k] == p.elems[t[k]];
      assert if j < k then less(s[j].0, s[k].0) else less(s[k].0, s[j].0);
      assert OrderedAt(less, s[j].0, key, s[k].0) && OrderedAt(less, s[k].0, key, s[j].0);
    }
  }

  /** Removes every element level with `key` and counts them.  False is the length error, after some are gone. */
  method EraseAll<K(!new), V>(less: (K, K) -> bool, unique: bool, maxDepth: nat, p: Parts<K, V>, key: K,
      ghost g: Shadow)
    returns (p': Parts<K, V>, n: nat, ok: bool, ghost g': Shadow)
    requires Whole(less, unique, p, g)
    requires Spacious(|Inorder(g.tree)|, maxDepth) || (unique && SecureKey(less, p, g.tree, key, maxDepth))
    ensures Whole(less, unique, p', g') && |p'.nodes| == |p.nodes| && g'.lost == g.lost
    ensures Fits(|Inorder(g.tree)|, maxDepth) ==> ok
    ensures n == |Listing(p, g.tree)| - |Listing(p', g'.tree)|
    ensures Removed(less, key, p, g.tree, p', g'.tree)
    ensures ok ==> Listing(p', g'.tree) == Without(less, Listing(p, g.tree), key)
    ensures ok ==> BySlot(p', g'.tree) == BySlot(p, g.tree) - Matching(less, BySlot(p, g.tree), key)
  {
    p', g', n, ok := p, g, 0, true;
    if Spacious(|Inorder(g.tree)|, maxDepth) { SpaciousSecureKey(less, p, g.tree, key, maxDepth); }
    while true
      invariant Whole(less, unique, p', g') && |p'.nodes| == |p.nodes| && g'.lost == g.lost
      invariant Removed(less, key, p, g.tree, p', g'.tree) && |Inorder(g'.tree)| <= |Inorder(g.tree)|
      invariant n + |Listing(p', g'.tree)| == |Listing(p, g.tree)|
      invariant SecureKey(less, p', g'.tree, key, maxDepth)
      decreases |Listing(p', g'.tree)|
    {
      ghost var p0, g0 := p', g';
      PathAlways(less, unique, p', g', key, maxDepth);
      var out;
      ghost var k, slot;
      p', out, g', k, slot := EraseOne(less, unique, maxDepth, p', key, g');
      if out.NoPath? {
        ok := false;
        return;
      }
      if out.Absent? {
        break;
      }
      RemovedOne(less, key, p, g.tree, p0, g0.tree, p', g'.tree, k, slot);
      n := n + 1;
      if unique {
        OnlyOne(less, p0, g0.tree, p', g'.tree, k, slot, key);
        break;
      }
      SpaciousSecureKey(less, p', g'.tree, key, maxDepth);
    }
    WithoutNone(less, Listing(p', g'.tree), key);
    NoneHeld(less, p', g'.tree, key);
    DropSet(less, p, g.tree, p', g'.tree, key);
  }

  /** Some of the elements level with `key` are gone and nothing else has changed. */
  ghost predicate Removed<K, V>(less: (K, K) -> bool, key: K, p: Parts<K, V>, tree: Tree, p': Parts<K, V>, tree': Tree)
    requires InRange(p.elems, Inorder(tree)) && InRange(p'.elems, Inorder(tree'))
  {
    && Without(less, Listing(p', tree'), key) == Without(less, Listing(p, tree), key)
    && p'.elems == p.elems && Slots(tree') <= Slots(tree)
    && forall i :: i in Slots(tree) - Slots(tree') ==> i < |p.elems| && Level(less, p.elems[i].0, key)
  }

  lemma TakenLength<E>(s: seq<E>, s': seq<E>, k: nat)
    requires TakenAt(s, s', k)
    ensures |s'| + 1 == |s|
  {
  }

  lemma RemovedOne<K(!new), V>(less: (K, K) -> bool, key: K, p: Parts<K, V>, tree: Tree, p0: Parts<K, V>, tree0: Tree,
      p': Parts<K, V>, tree': Tree, k: nat, slot: nat)
    requires InRange(p.elems, Inorder(tree)) && InRange(p0.elems, Inorder(tree0)) && InRange(p'.elems, Inorder(tree'))
    requires Removed(less, key, p, tree, p0, tree0)
    requires ErasedAt(p0, tree0, p', tree', k, slot) && Level(less, p0.elems[slot].0, key)
    ensures Removed(less, key, p, tree, p', tree')
    ensures |Listing(p', tree')| + 1 == |Listing(p0, tree0)| && |Inorder(tree')| + 1 == |Inorder(tree0)|
  {
    TakenLength(Listing(p0, tree0), Listing(p', tree'), k);
    WithoutTaken(less, Listing(p0, tree0), Listing(p', tree'), k, key);
    RemovedMore(less, key, p, tree, p0, tree0, p', tree', slot);
  }

  lemma RemovedMore<K(!new), V>(less: (K, K) -> bool, key: K, p: Parts<K, V>, tree: Tree, p0: Parts<K, V>, tree0: Tree,
      p': Parts<K, V>, tree': Tree, slot: nat)
    requires InRange(p.elems, Inorder(tree)) && InRange(p0.elems, Inorder(tree0)) && InRange(p'.elems, Inorder(tree'))
    requires Removed(less, key, p, tree, p0, tree0)
    requires Without(less, Listing(p', tree'), key) == Without(less, Listing(p0, tree0), key)
    requires p'.elems == p0.elems && Slots(tree') == Slots(tree0) - {slot}
    requires slot < |p0.elems| && Level(less, p0.elems[slot].0, key)
    ensures Removed(less, key, p, tree, p', tree')
  {
    forall i | i in Slots(tree) - Slots(tree') ensures i < |p.elems| && Level(less, p.elems[i].0, key) {
      if i in Slots(tree0) {
        assert i == slot;
      } else {
        assert i in Slots(tree) - Slots(tree0);
      }
    }
  }

  lemma PathAlways<K(!new), V>(less: (K, K) -> bool, unique: bool, p: Parts<K, V>, g: Shadow, key: K, maxDepth: nat)
    requires Whole(less, unique, p, g)
    ensures Fits(|Inorder(g.tree)|, maxDepth) ==>
      UniquePathLength(g.tree, BelowKey(less, p.elems, key), AboveKey(less, p.elems, key)) <= maxDepth
  {
    UniquePathLengthBound(g.tree, BelowKey(less, p.elems, key), AboveKey(less, p.elems, key));
    if Fits(|Inorder(g.tree)|, maxDepth) { FitsHeight(less, unique, p, g, maxDepth); }
  }

  lemma SlotPathAlways<K(!new), V>(less: (K, K) -> bool, unique: bool, p: Parts<K, V>, g: Shadow, slot: nat,
      maxDepth: nat)
    requires Whole(less, unique, p, g)
    ensures Fits(|Inorder(g.tree)|, maxDepth) ==>
      UniquePathLength(g.tree, BelowSlot(less, p.elems, slot), AboveSlot(less, p.elems, slot)) <= maxDepth
  {
    UniquePathLengthBound(g.tree, BelowSlot(less, p.elems, slot), AboveSlot(less, p.elems, slot));
    if Fits(|Inorder(g.tree)|, maxDepth) { FitsHeight(less, unique, p, g, maxDepth); }
  }

  ghost function Matching<K, V>(less: (K, K) -> bool, e: map<nat, (K, V)>, key: K): set<nat> {
    set i | i in e && Level(less, e[i].0, key)
  }

  lemma NoneHeld<K, V>(less: (K, K) -> bool, p: Parts<K, V>, tree: Tree, key: K)
    requires InRange(p.elems, Inorder(tree))
    requires forall i :: 0 <= i < |Listing(p, tree)| ==> !Level(less, Listing(p, tree)[i].0, key)
    ensures Matching(less, BySlot(p, tree), key) == {}
  {
    SlotsAreInorder(tree);
    var s, u := Listing(p, tree), Inorder(tree);
    forall x | x in BySlot(p, tree) ensures !Level(less, BySlot(p, tree)[x].0, key) {
      var i :| 0 <= i < |u| && u[i] == x;
      assert s[i] == p.elems[x];
    }
  }

  /** Some are gone and none is left: exactly the matching ones are gone. */
  lemma DropSet<K, V>(less: (K, K) -> bool, p: Parts<K, V>, tree: Tree, p': Parts<K, V>, tree': Tree, key: K)
    requires InRange(p.elems, Inorder(tree)) && InRange(p'.elems, Inorder(tree'))
    requires Removed(less, key, p, tree, p', tree') && Matching(less, BySlot(p', tree'), key) == {}
    ensures BySlot(p', tree') == BySlot(p, tree) - Matching(less, BySlot(p, tree), key)
  {
    SlotsAreInorder(tree);
    SlotsAreInorder(tree');
    var e, e' := BySlot(p, tree), BySlot(p', tree');
    forall i: nat ensures i in e' <==> i in e && !Level(less, e[i].0, key) {
      if i in e' { assert i !in Matching(less, e', key); }
    }
  }

  // ---- Queries.

  /** Exactly the first `i` elements are before `key`. */
  ghost predicate LowerAt<K, V>(less: (K, K) -> bool, s: seq<(K, V)>, i: nat, key: K) {
    i <= |s| && forall j :: 0 <= j < |s| ==> (less(s[j].0, key) <==> j < i)
  }

  /** Exactly the elements from the `i`-th on are after `key`. */
  ghost predicate UpperAt<K, V>(less: (K, K) -> bool, s: seq<(K, V)>, i: nat, key: K) {
    i <= |s| && forall j :: 0 <= j < |s| ==> (less(key, s[j].0) <==> i <= j)
  }

  /** The two predicates a key search is steered by, and what their ranks mean for the listing. */
  lemma KeyRanks<K(!new), V>(less: (K, K) -> bool, unique: bool, p: Parts<K, V>, g: Shadow, key: K)
    requires Whole(less, unique, p, g)
    ensures Cut(Inorder(g.tree), BelowKey(less, p.elems, key), AboveKey(less, p.elems, key))
    ensures LowerAt(less, Listing(p, g.tree), Rank(Inorder(g.tree), BelowKey(less, p.elems, key)), key)
    ensures UpperAt(less, Listing(p, g.tree), Rank(Inorder(g.tree), NotF(AboveKey(less, p.elems, key))), key)
  {
    var s := Inorder(g.tree);
    KeyCut(less, p.elems, s, key);
    RankMeaning(s, BelowKey(less, p.elems, key));
    RankMeaning(s, NotF(AboveKey(less, p.elems, key)));
  }

  lemma {:induction false} WithoutAll<K, V>(less: (K, K) -> bool, s: seq<(K, V)>, key: K)
    requires forall i :: 0 <= i < |s| ==> Level(less, s[i].0, key)
    ensures Without(less, s, key) == []
  {
    if s == [] {
    } else {
      assert forall i :: 0 <= i < |s| - 1 ==> s[1..][i] == s[i + 1];
      WithoutAll(less, s[1..], key);
    }
  }

  lemma BoundsOrdered<K(!new), V>(less: (K, K) -> bool, s: seq<(K, V)>, lo: nat, hi: nat, key: K)
    requires StrictWeakOrder(less) && LowerAt(less, s, lo, key) && UpperAt(less, s, hi, key)
    ensures lo <= hi
  {
    if hi < |s| {
      assert OrderedAt(less, key, s[hi].0, key);
    }
  }

  /** Between the two bounds lie exactly the elements level with `key`. */
  lemma BetweenBounds<K(!new), V>(less: (K, K) -> bool, s: seq<(K, V)>, lo: nat, hi: nat, key: K)
    requires StrictWeakOrder(less) && LowerAt(less, s, lo, key) && UpperAt(less, s, hi, key)
    ensures lo <= hi && Without(less, s, key) == s[..lo] + s[hi..]
  {
    BoundsOrdered(less, s, lo, hi, key);
    var a, m, b := s[..lo], s[lo..hi], s[hi..];
    assert s == a + m + b;
    OutsideBounds(less, s, lo, hi, key);
    InsideBounds(less, s, lo, hi, key);
    WithoutThree(less, s, a, m, b, key);
  }

  lemma OutsideBounds<K(!new), V>(less: (K, K) -> bool, s: seq<(K, V)>, lo: nat, hi: nat, key: K)
    requires LowerAt(less, s, lo, key) && UpperAt(less, s, hi, key)
    ensures Without(less, s[..lo], key) == s[..lo] && Without(less, s[hi..], key) == s[hi..]
  {
    var a, b := s[..lo], s[hi..];
    assert forall i :: 0 <= i < |a| ==> a[i] == s[i];
    WithoutNone(less, a, key);
    assert forall i :: 0 <= i < |b| ==> b[i] == s[hi + i];
    WithoutNone(less, b, key);
  }

  lemma InsideBounds<K(!new), V>(less: (K, K) -> bool, s: seq<(K, V)>, lo: nat, hi: nat, key: K)
    requires LowerAt(less, s, lo, key) && UpperAt(less, s, hi, key) && lo <= hi
    ensures Without(less, s[lo..hi], key) == []
  {
    var m := s[lo..hi];
    assert forall i :: 0 <= i < |m| ==> m[i] == s[lo + i];
    WithoutAll(less, m, key);
  }

  lemma WithoutThree<K(!new), V>(less: (K, K) -> bool, s: seq<(K, V)>, a: seq<(K, V)>, m: seq<(K, V)>,
      b: seq<(K, V)>, key: K)
    requires s == a + m + b
    ensures Without(less, s, key) == Without(less, a, key) + Without(less, m, key) + Without(less, b, key)
  {
    WithoutConcat(less, a + m, b, key);
    WithoutConcat(less, a, m, key);
  }

  /** The first element not before `key` is level with it if any is. */
  lemma FoundAtBound<K(!new), V>(less: (K, K) -> bool, p: Parts<K, V>, tree: Tree, key: K, w: int)
    requires InRange(p.elems, Inorder(tree)) &&
        Cut(Inorder(tree), BelowKey(less, p.elems, key), AboveKey(less, p.elems, key))
    requires w == Nth(Inorder(tree), Rank(Inorder(tree), BelowKey(less, p.elems, key)))
    ensures w != NIL ==> 0 <= w < |p.elems| && w in Inorder(tree) && !less(p.elems[w].0, key)
    ensures w == NIL || less(key, p.elems[w].0) ==>
              forall x :: x in Inorder(tree) && x < |p.elems| ==> !Level(less, p.elems[x].0, key)
  {
    var s, below, above := Inorder(tree), BelowKey(less, p.elems, key), AboveKey(less, p.elems, key);
    RankMeaning(s, below);
    var r := Rank(s, below);
    if r < |s| && above(s[r]) {
      forall i | r < i < |s| ensures above(s[i]) {
        assert NotF(above)(s[i]) == !above(s[i]) && NotF(above)(s[r]) == !above(s[r]);
      }
    }
  }

  method LowerBoundOf<K(!new), V>(less: (K, K) -> bool, unique: bool, p: Parts<K, V>, key: K,
      ghost g: Shadow) returns (w: int)
    requires Whole(less, unique, p, g)
    ensures exists i: nat :: LowerAt(less, Listing(p, g.tree), i, key) && w == Nth(Inorder(g.tree), i)
  {
    KeyRanks(less, unique, p, g, key);
    w := Search.LowerBound(p.nodes, p.root.root, BelowKey(less, p.elems, key), g.tree);
  }

  method UpperBoundOf<K(!new), V>(less: (K, K) -> bool, unique: bool, p: Parts<K, V>, key: K,
      ghost g: Shadow) returns (w: int)
    requires Whole(less, unique, p, g)
    ensures exists i: nat :: UpperAt(less, Listing(p, g.tree), i, key) && w == Nth(Inorder(g.tree), i)
  {
    KeyRanks(less, unique, p, g, key);
    w := Search.UpperBound(p.nodes, p.root.root, AboveKey(less, p.elems, key), g.tree);
  }

  method ReverseLowerBoundOf<K(!new), V>(less: (K, K) -> bool, unique: bool, p: Parts<K, V>, key: K,
      ghost g: Shadow) returns (w: int)
    requires Whole(less, unique, p, g)
    ensures exists i: nat :: UpperAt(less, Listing(p, g.tree), i, key) && w == Nth(Inorder(g.tree), i - 1)
  {
    KeyRanks(less, unique, p, g, key);
    w := Search.ReverseLowerBound(p.nodes, p.root.root, AboveKey(less, p.elems, key), g.tree);
  }

  method ReverseUpperBoundOf<K(!new), V>(less: (K, K) -> bool, unique: bool, p: Parts<K, V>, key: K,
      ghost g: Shadow) returns (w: int)
    requires Whole(less, unique, p, g)
    ensures exists i: nat :: LowerAt(less, Listing(p, g.tree), i, key) && w == Nth(Inorder(g.tree), i - 1)
  {
    KeyRanks(less, unique, p, g, key);
    w := Search.ReverseUpperBound(p.nodes, p.root.root, BelowKey(less, p.elems, key), g.tree);
  }

  /** The length of the path to a slot. */
  function SlotPath<K, V>(less: (K, K) -> bool, elems: seq<(K, V)>, t: Tree, slot: nat): nat {
    match t
    case Nil => 0
    case Bin(l, i, _, r) =>
      1 + if SlotLess(less, elems, slot, i) then SlotPath(less, elems, l, slot)
          else if SlotLess(less, elems, i, slot) then SlotPath(less, elems, r, slot) else 0
  }

  lemma {:induction false} SlotPathIs<K, V>(less: (K, K) -> bool, elems: seq<(K, V)>, t: Tree, slot: nat)
    ensures SlotPath(less, elems, t, slot)
      == UniquePathLength(t, BelowSlot(less, elems, slot), AboveSlot(less, elems, slot))
  {
    match t {
      case Nil =>
      case Bin(l, _, _, r) =>
        SlotPathIs(less, elems, l, slot);
        SlotPathIs(less, elems, r, slot);
    }
  }

  predicate IsAt(s: seq<nat>, i: int, slot: nat) { 0 <= i < |s| && s[i] == slot }

  /** `next` comes after `slot` in `s`, or `slot` is the last. */
  ghost predicate FollowedBy(s: seq<nat>, slot: nat, next: int) {
    exists i :: IsAt(s, i, slot) && next == Nth(s, i + 1)
  }

  /** The effect of erasing by iterator: exactly the slot goes, unless the path to it is too long, and `next` is the
      slot that followed it. */
  ghost predicate EraseEffect<K(!new), V>(less: (K, K) -> bool, unique: bool, maxDepth: nat, slot: nat, ok: bool,
      next: int, k: nat, p: Parts<K, V>, g: Shadow, p': Parts<K, V>, g': Shadow)
    requires Whole(less, unique, p, g) && Whole(less, unique, p', g')
  {
    && (ok <==> SlotPath(less, p.elems, g.tree, slot) <= maxDepth) && (Fits(|Inorder(g.tree)|, maxDepth) ==> ok)
    && (if ok then ErasedAt(p, g.tree, p', g'.tree, k, slot) else p' == p && g' == g)
    && g'.lost == g.lost && FollowedBy(Inorder(g.tree), slot, next)
  }

  /** Erasure by iterator: the following slot is looked up first. */
  method EraseIterator<K(!new), V>(less: (K, K) -> bool, unique: bool, maxDepth: nat, p: Parts<K, V>, slot: nat,
      ghost g: Shadow)
    returns (p': Parts<K, V>, ok: bool, next: int, ghost g': Shadow, ghost k: nat)
    requires Whole(less, unique, p, g) && slot in Slots(g.tree) && Secure(g.tree, slot, maxDepth)
    ensures Whole(less, unique, p', g') && |p'.nodes| == |p.nodes|
    ensures EraseEffect(less, unique, maxDepth, slot, ok, next, k, p, g, p', g')
  {
    SlotsAreInorder(g.tree);
    ghost var i :| 0 <= i < |Inorder(g.tree)| && Inorder(g.tree)[i] == slot;
    assert IsAt(Inorder(g.tree), i, slot);
    next := Traversal.Next(p.nodes, slot, p.root.root, g.tree, i);
    assert FollowedBy(Inorder(g.tree), slot, next);
    SlotPathAlways(less, unique, p, g, slot, maxDepth);
    SlotPathIs(less, p.elems, g.tree, slot);
    p', ok, g', k := EraseSlot(less, unique, maxDepth, p, slot, g);
  }

  // ---- Iteration.

  method WalkForward(nodes: seq<Cell>, root: TreeRoot, ghost tree: Tree) returns (visited: seq<nat>)
    requires IsTree(nodes, root, tree) && root.ends
    ensures visited == Inorder(tree)
  {
    ghost var s := Inorder(tree);
    visited := [];
    var p := root.left;
    while p != NIL
      invariant |visited| <= |s| && visited == s[..|visited|]
      invariant p == Nth(s, |visited|)
      decreases |s| - |visited|
    {
      var next := Traversal.Next(nodes, p, root.root, tree, |visited|);
      visited := visited + [p];
      p := next;
    }
  }

  method WalkBackward(nodes: seq<Cell>, root: TreeRoot, ghost tree: Tree) returns (visited: seq<nat>)
    requires IsTree(nodes, root, tree) && root.ends
    ensures |visited| == |Inorder(tree)|
    ensures forall i :: 0 <= i < |visited| ==> visited[i] == Inorder(tree)[|visited| - 1 - i]
  {
    ghost var s := Inorder(tree);
    visited := [];
    var p := root.right;
    while p != NIL
      invariant |visited| <= |s| && p == Nth(s, |s| - 1 - |visited|)
      invariant forall i :: 0 <= i < |visited| ==> visited[i] == s[|s| - 1 - i]
      decreases |s| - |visited|
    {
      var prev := Traversal.Prev(nodes, p, root.root, tree, |s| - 1 - |visited|);
      visited := visited + [p];
      p := prev;
    }
  }

  // ---- The container object.

  class SortedContainer<K(!new), V> {
    const less: (K, K) -> bool
    const unique: bool
    const maxDepth: nat
    const maxSize: nat
    var parts: Parts<K, V>
    ghost var shadow: Shadow

    ghost predicate Valid()
      reads this
    {
      Whole(less, unique, parts, shadow) && |parts.nodes| < maxSize + |shadow.lost|
    }

    /** The elements in key order. */
    ghost function Contents(): seq<(K, V)>
      requires Valid()
      reads this
    {
      Listing(parts, shadow.tree)
    }

    /** The elements by slot. */
    ghost function Elements(): map<nat, (K, V)>
      reads this
    {
      BySlot(parts, shadow.tree)
    }

    constructor (less: (K, K) -> bool, unique: bool, maxDepth: nat, maxSize: nat)
      requires StrictWeakOrder(less) && maxSize > 0
      ensures Valid() && Contents() == [] && Elements() == map[] && shadow.lost == {}
      ensures this.less == less && this.unique == unique && this.maxDepth == maxDepth && this.maxSize == maxSize
    {
      this.less, this.unique, this.maxDepth, this.maxSize := less, unique, maxDepth, maxSize;
      parts := Parts(EmptyRoot(true, true), [], [], NIL);
      shadow := Shadow(Nil, [], {});
    }

    function Size(): int
      reads this
    {
      parts.root.count
    }

    /** No slot is live and free at once, none goes missing but the lost ones, and the flags tell. */
    lemma Accounting()
      requires Valid()
      ensures Size() == |Contents()| == |Slots(shadow.tree)|
      ensures |parts.nodes| == Size() + |shadow.chain| + |shadow.lost|
      ensures forall i: nat :: i < |parts.nodes| && i !in shadow.lost ==>
          (i in Slots(shadow.tree) <==> !parts.nodes[i].empty)
    {
      SlotCount(less, unique, parts, shadow);
      SlotFlags(parts.nodes, parts.root.root, parts.free, shadow);
    }

    /** Insertion. */
    method Insert(x: (K, V)) returns (out: Outcome, ghost k: nat)
      requires Valid()
      modifies this
      ensures Valid()
      ensures out.TooLong? <==> old(Size()) >= maxSize - 1
      ensures InsertEffect(less, unique, maxDepth, x, out, k, old(parts), old(shadow), parts, shadow)
    {
      parts, out, shadow, k := InsertInto(less, unique, maxDepth, maxSize, parts, x, shadow);
    }

    /** Erasure by key.  False is the length error. */
    method EraseKey(key: K) returns (n: nat, ok: bool)
      requires Valid()
      requires Spacious(|Contents()|, maxDepth) || (unique && SecureKey(less, parts, shadow.tree, key, maxDepth))
      modifies this
      ensures Valid() && shadow.lost == old(shadow.lost) && n == |old(Contents())| - |Contents()|
      ensures old(Fits(|Contents()|, maxDepth)) ==> ok
      ensures Removed(less, key, old(parts), old(shadow.tree), parts, shadow.tree)
      ensures ok ==> Contents() == Without(less, old(Contents()), key)
      ensures ok ==> Elements() == old(Elements()) - Matching(less, old(Elements()), key)
    {
      parts, n, ok, shadow := EraseAll(less, unique, maxDepth, parts, key, shadow);
    }

    method LowerBound(key: K) returns (w: int)
      requires Valid()
      ensures exists i: nat :: LowerAt(less, Contents(), i, key) && w == Nth(Inorder(shadow.tree), i)
    {
      w := LowerBoundOf(less, unique, parts, key, shadow);
    }

    method UpperBound(key: K) returns (w: int)
      requires Valid()
      ensures exists i: nat :: UpperAt(less, Contents(), i, key) && w == Nth(Inorder(shadow.tree), i)
    {
      w := UpperBoundOf(less, unique, parts, key, shadow);
    }

    method ReverseLowerBound(key: K) returns (w: int)
      requires Valid()
      ensures exists i: nat :: UpperAt(less, Contents(), i, key) && w == Nth(Inorder(shadow.tree), i - 1)
    {
      w := ReverseLowerBoundOf(less, unique, parts, key, shadow);
      ghost var i: nat :| UpperAt(less, Listing(parts, shadow.tree), i, key) && w == Nth(Inorder(shadow.tree), i - 1);
      assert UpperAt(less, Contents(), i, key);
    }

    method ReverseUpperBound(key: K) returns (w: int)
      requires Valid()
      ensures exists i: nat :: LowerAt(less, Contents(), i, key) && w == Nth(Inorder(shadow.tree), i - 1)
    {
      w := ReverseUpperBoundOf(less, unique, parts, key, shadow);
      ghost var i: nat :| LowerAt(less, Listing(parts, shadow.tree), i, key) && w == Nth(Inorder(shadow.tree), i - 1);
      assert LowerAt(less, Contents(), i, key);
    }

    /** A slot level with `key`, or NIL. */
    method Find(key: K) returns (w: int)
      requires Valid()
      ensures w != NIL ==> 0 <= w < |parts.elems| && w in Inorder(shadow.tree) && Level(less, parts.elems[w].0, key)
      ensures w == NIL ==> forall x :: x in Inorder(shadow.tree) && x < |parts.elems| ==>
          !Level(less, parts.elems[x].0, key)
    {
      KeyRanks(less, unique, parts, shadow, key);
      if unique {
        w := EqualUnique(parts.nodes, parts.root.root, BelowKey(less, parts.elems, key),
            AboveKey(less, parts.elems, key), shadow.tree);
      } else {
        w := Search.LowerBound(parts.nodes, parts.root.root, BelowKey(less, parts.elems, key), shadow.tree);
        FoundAtBound(less, parts, shadow.tree, key, w);
        if w == NIL || less(key, parts.elems[w].0) {
          w := NIL;
        }
      }
    }

    /** The number of elements level with `key`: the steps between the two ends of the equal range. */
    method Count(key: K) returns (n: nat)
      requires Valid()
      ensures n == |Contents()| - |Without(less, Contents(), key)|
    {
      var below, above := BelowKey(less, parts.elems, key), AboveKey(less, parts.elems, key);
      KeyRanks(less, unique, parts, shadow, key);
      ghost var s := Inorder(shadow.tree);
      BetweenBounds(less, Contents(), Rank(s, below), Rank(s, NotF(above)), key);
      var lower, upper := EqualRange(parts.nodes, parts.root.root, below, above, shadow.tree);
      n := Distance(parts.nodes, lower, upper, parts.root.root, shadow.tree, Rank(s, below), Rank(s, NotF(above)));
    }

    /** Stepping from the cached first slot visits all slots in order and then ends. */
    method Forward() returns (visited: seq<nat>)
      requires Valid()
      ensures visited == Inorder(shadow.tree)
    {
      visited := WalkForward(parts.nodes, parts.root, shadow.tree);
    }

    /** Stepping back from the cached last slot visits them in the opposite order. */
    method Backward() returns (visited: seq<nat>)
      requires Valid()
      ensures |visited| == |Inorder(shadow.tree)|
      ensures forall i :: 0 <= i < |visited| ==> visited[i] == Inorder(shadow.tree)[|visited| - 1 - i]
    {
      visited := WalkBackward(parts.nodes, parts.root, shadow.tree);
    }

    /** Erasure by iterator; returns the following one.  False is the length error. */
    method EraseAt(slot: nat) returns (ok: bool, next: int, ghost k: nat)
      requires Valid() && slot in Elements() && Secure(shadow.tree, slot, maxDepth)
      modifies this
      ensures Valid()
      ensures EraseEffect(less, unique, maxDepth, slot, ok, next, k, old(parts), old(shadow), parts, shadow)
    {
      parts, ok, next, shadow, k := EraseIterator(less, unique, maxDepth, parts, slot, shadow);
    }
  }

  /** Every allocated slot is in the tree, in the free chain, or lost. */
  lemma SlotCount<K(!new), V>(less: (K, K) -> bool, unique: bool, p: Parts<K, V>, g: Shadow)
    requires Whole(less, unique, p, g)
    ensures p.root.count == |Inorder(g.tree)| == |Slots(g.tree)|
    ensures |p.nodes| == p.root.count + |g.chain| + |g.lost|
  {
    DistinctInorder(g.tree);
    SlotsAreInorder(g.tree);
    ElementsSize(Inorder(g.tree));
    assert Elements(Inorder(g.tree)) == Slots(g.tree);
    PoolCount(p.nodes, |p.nodes|, p.free, g.chain, Slots(g.tree), g.lost);
  }

  /** The used-flag of a slot tells whether it is in the tree. */
  lemma SlotFlags(nodes: seq<Cell>, root: int, free: int, g: Shadow)
    requires Holds(nodes, root, g.tree) && PoolOk(nodes, |nodes|, free, g.chain, Slots(g.tree), g.lost)
    ensures forall i: nat :: i < |nodes| && i !in g.lost ==> (i in Slots(g.tree) <==> !nodes[i].empty)
  {
    RepInPool(nodes, g.tree, NIL, NIL);
    ChainEmpty(nodes, free, g.chain);
    UptoMembers(|nodes|);
    forall i: nat | i < |nodes| && i !in g.lost ensures i in Slots(g.tree) <==> !nodes[i].empty {
      assert i in Upto(|nodes|);
    }
  }
}
