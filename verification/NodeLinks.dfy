/** All links of a container can be packed: they are slots of its pool or the sentinel. */
module NodeLinks {
  import opened Shape
  import opened Threads
  import opened SlotPool
  import opened SortedContainers
  import NodeBits32

  predicate InPool(to: int, n: nat) { to == NIL || 0 <= to < n }

  predicate LinksInPool(nodes: seq<Cell>, i: nat) {
    i < |nodes| && InPool(nodes[i].left.to, |nodes|) && InPool(nodes[i].right.to, |nodes|)
  }

  lemma {:induction false} RepLinks(nodes: seq<Cell>, t: Tree, lo: int, hi: int)
    requires Rep(nodes, t, lo, hi) && InPool(lo, |nodes|) && InPool(hi, |nodes|)
    ensures forall i :: i in Slots(t) ==> LinksInPool(nodes, i)
    ensures InPool(SlotOf(t), |nodes|)
    decreases t
  {
    match t {
      case Nil =>
      case Bin(l, i, _, r) =>
        RepLinks(nodes, l, lo, i);
        RepLinks(nodes, r, i, hi);
    }
  }

  lemma {:induction false} ChainLinks(nodes: seq<Cell>, free: int, chain: seq<nat>)
    requires Chained(nodes, free, chain)
    ensures InPool(free, |nodes|) && forall i :: i in chain ==> i < |nodes| && InPool(nodes[i].left.to, |nodes|)
    decreases chain
  {
    if chain == [] {
    } else {
      ChainLinks(nodes, nodes[free].left.to, chain[1..]);
      assert chain == [chain[0]] + chain[1..];
    }
  }

  /** In a container whose slots all stay below the sentinel and that has lost none, the root, the head of the free
      chain, every link of the tree and every link of the chain is a slot of the pool or the sentinel, and the word
      of any slot of the pool is a link that is not the sentinel. */
  lemma ContainerLinks<K(!new), V>(c: SortedContainer<K, V>)
    requires c.Valid() && c.shadow.lost == {} && c.maxSize <= 0x3FFF_FFFF
    ensures InPool(c.parts.root.root, |c.parts.nodes|) && InPool(c.parts.free, |c.parts.nodes|)
    ensures forall i :: i in Slots(c.shadow.tree) ==> LinksInPool(c.parts.nodes, i)
    ensures forall i :: i in c.shadow.chain ==> i < |c.parts.nodes| && InPool(c.parts.nodes[i].left.to, |c.parts.nodes|)
    ensures forall w: bv32 :: w as int < |c.parts.nodes| ==> NodeBits32.IsLink(w) && w != NodeBits32.SENTINEL
  {
    RepLinks(c.parts.nodes, c.shadow.tree, NIL, NIL);
    ChainLinks(c.parts.nodes, c.parts.free, c.shadow.chain);
    forall w: bv32 | w as int < |c.parts.nodes| ensures NodeBits32.IsLink(w) && w != NodeBits32.SENTINEL {
      NodeBits32.SlotWord(w);
    }
  }
}
