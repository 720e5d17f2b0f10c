/** The pool of slots: live ones, and freed ones chained through their left links. */
module SlotPool {
  import opened Shape
  import opened Threads

  function Elements(s: seq<nat>): set<nat> {
    set x | x in s
  }

  /** The slots 0 .. n - 1. */
  function Upto(n: nat): set<nat> {
    if n == 0 then {} else Upto(n - 1) + {n - 1}
  }

  lemma {:induction false} UptoMembers(n: nat)
    ensures forall x: nat :: x in Upto(n) <==> x < n
    ensures |Upto(n)| == n
  {
    if n == 0 {
    } else {
      UptoMembers(n - 1);
    }
  }

  /** Following left links from `free` visits `chain`, all of it marked empty, and ends. */
  ghost predicate Chained(nodes: seq<Cell>, free: int, chain: seq<nat>)
    decreases chain
  {
    if chain == [] then free == NIL
    else
      && free == chain[0] < |nodes| && nodes[free].empty
      && Chained(nodes, nodes[free].left.to, chain[1..])
  }

  /** Of the first `n` cells each is live, or in the free chain, or lost, and only one of these. */
  ghost predicate PoolOk(nodes: seq<Cell>, n: nat, free: int, chain: seq<nat>, live: set<nat>, lost: set<nat>) {
    && n <= |nodes|
    && Chained(nodes, free, chain) && NoDuplicates(chain)
    && Elements(chain) !! live && Elements(chain) !! lost && live !! lost
    && Elements(chain) + live + lost == Upto(n)
  }

  lemma {:induction false} ChainedFrame(nodes: seq<Cell>, nodes': seq<Cell>, free: int, chain: seq<nat>)
    requires Chained(nodes, free, chain) && SameOn(nodes, nodes', Elements(chain))
    ensures Chained(nodes', free, chain)
    decreases chain
  {
    if chain == [] {
    } else {
      assert chain[0] in chain;
      ChainedFrame(nodes, nodes', nodes[free].left.to, chain[1..]);
    }
  }

  lemma {:induction false} ChainEmpty(nodes: seq<Cell>, free: int, chain: seq<nat>)
    requires Chained(nodes, free, chain)
    ensures forall i :: i in chain ==> i < |nodes| && nodes[i].empty
    decreases chain
  {
    if chain == [] {
    } else {
      assert chain == [chain[0]] + chain[1..];
      ChainEmpty(nodes, nodes[free].left.to, chain[1..]);
    }
  }

  lemma ElementsCons(chain: seq<nat>)
    requires chain != [] && NoDuplicates(chain)
    ensures Elements(chain) == Elements(chain[1..]) + {chain[0]} && chain[0] !in Elements(chain[1..])
    ensures NoDuplicates(chain[1..])
  {
    assert chain == [chain[0]] + chain[1..];
    NoDuplicatesSplit([chain[0]], chain[1..]);
  }

  /** Taking a slot off the chain. */
  lemma PoolTake(nodes: seq<Cell>, n: nat, free: int, chain: seq<nat>, live: set<nat>, lost: set<nat>)
    requires PoolOk(nodes, n, free, chain, live, lost) && free != NIL
    ensures chain != [] && free == chain[0] < n && free !in live && free !in lost && nodes[free].empty
    ensures PoolOk(nodes, n, nodes[free].left.to, chain[1..], live + {free}, lost)
  {
    UptoMembers(n);
    ElementsCons(chain);
    assert chain[0] in Elements(chain);
  }

  /** Adding the first cell beyond the pool. */
  lemma PoolGrow(nodes: seq<Cell>, nodes': seq<Cell>, n: nat, free: int, chain: seq<nat>, live: set<nat>,
      lost: set<nat>)
    requires PoolOk(nodes, n, free, chain, live, lost)
    requires n < |nodes'| && |nodes| <= |nodes'| && forall i :: 0 <= i < n ==> nodes'[i] == nodes[i]
    ensures n !in live && PoolOk(nodes', n + 1, free, chain, live + {n}, lost)
  {
    UptoMembers(n);
    ChainedFrame(nodes, nodes', free, chain);
  }

  /** Freeing a slot. */
  lemma PoolGive(nodes: seq<Cell>, n: nat, free: int, chain: seq<nat>, live: set<nat>, lost: set<nat>, x: nat)
    requires PoolOk(nodes, n, free, chain, live, lost) && x in live && x < n && nodes[x].empty
    ensures PoolOk(SetLink(nodes, x, true, free), n, x, [x] + chain, live - {x}, lost)
  {
    var nodes', c := SetLink(nodes, x, true, free), [x] + chain;
    assert c[1..] == chain;
    ChainedFrame(nodes, nodes', free, chain);
    assert Elements(c) == {x} + Elements(chain);
    NoDuplicatesConcat([x], chain);
  }

  /** A slot that was taken and never linked in. */
  lemma PoolLose(nodes: seq<Cell>, n: nat, free: int, chain: seq<nat>, live: set<nat>, lost: set<nat>, x: nat)
    requires PoolOk(nodes, n, free, chain, live + {x}, lost) && x !in live
    ensures x !in lost && PoolOk(nodes, n, free, chain, live, lost + {x})
  {
    assert x in live + {x};
  }

  /** Changes of live cells. */
  lemma PoolFrame(nodes: seq<Cell>, nodes': seq<Cell>, n: nat, free: int, chain: seq<nat>, live: set<nat>,
      lost: set<nat>)
    requires PoolOk(nodes, n, free, chain, live, lost) && SameOutside(nodes, nodes', live)
    ensures PoolOk(nodes', n, free, chain, live, lost)
  {
    Untouched(nodes, nodes', live, Elements(chain));
    ChainedFrame(nodes, nodes', free, chain);
  }

  /** A vector element starts out zeroed. */
  const FRESH: Cell := Cell(Link(false, 0), Link(false, 0), false, false)

  /** The slot that comes next. */
  function NewSlot(nodes: seq<Cell>, free: int): int { if free == NIL then |nodes| else free }

  /** A free slot if there is one, else a new one at the end of the vector; the element is constructed in it. */
  method Alloc<E>(nodes: seq<Cell>, elems: seq<E>, free: int, x: E, ghost chain: seq<nat>, ghost live: set<nat>,
      ghost lost: set<nat>)
    returns (nodes': seq<Cell>, elems': seq<E>, free': int, index: nat, ghost chain': seq<nat>)
    requires |elems| == |nodes| && PoolOk(nodes, |nodes|, free, chain, live, lost)
    ensures |elems'| == |nodes'| == |nodes| + if chain == [] then 1 else 0
    ensures index == NewSlot(nodes, free) < |nodes'| && index !in live && index !in lost && elems'[index] == x
    ensures PoolOk(nodes', |nodes'|, free', chain', live + {index}, lost)
    ensures SameOn(nodes, nodes', live) && forall i :: i in live && i < |elems| ==> elems'[i] == elems[i]
  {
    if free == NIL {
      index := |nodes|;
      nodes', elems', free', chain' := nodes + [FRESH], elems + [x], free, chain;
      PoolGrow(nodes, nodes', |nodes|, free, chain, live, lost);
      UptoMembers(|nodes|);
    } else {
      PoolTake(nodes, |nodes|, free, chain, live, lost);
      index := free;
      nodes', elems', free', chain' := nodes, elems[index := x], nodes[index].left.to, chain[1..];
    }
  }

  // ---- Counting.

  lemma {:induction false} ElementsSize(s: seq<nat>)
    requires NoDuplicates(s)
    ensures |Elements(s)| == |s|
  {
    if s == [] {
    } else {
      ElementsCons(s);
      ElementsSize(s[1..]);
    }
  }

  /** Every slot is accounted for. */
  lemma PoolCount(nodes: seq<Cell>, n: nat, free: int, chain: seq<nat>, live: set<nat>, lost: set<nat>)
    requires PoolOk(nodes, n, free, chain, live, lost)
    ensures n == |live| + |chain| + |lost|
  {
    UptoMembers(n);
    ElementsSize(chain);
    assert |Elements(chain) + live| == |Elements(chain)| + |live|;
  }
}
