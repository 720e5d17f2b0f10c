/** The hash table: `threaded_rbtree_hash` in unique mode.

    Every bucket is a threaded tree; all trees live in one pool of cells with one vector of
    elements, of which the first `|elems|` slots have been used so far. */
module HashTables {
  import opened Shape
  import opened Heights
  import opened Threads
  import opened PathStacks
  import opened Roots
  import opened Search
  import opened Ordering
  import opened SlotPool
  import opened SortedContainers
  import opened HashGrowth
  import Insertion
  import Removal

  /** `nodes` has as many cells as the table has capacity. */
  datatype Table<K, V> = Table(buckets: seq<TreeRoot>, nodes: seq<Cell>, elems: seq<(K, V)>, freeCount: nat,
      freeList: int)

  /** A table that has never held anything. */
  function NoTable<K, V>(): Table<K, V> { Table([], [], [], 0, NIL) }

  datatype Trees = Trees(trees: seq<Tree>, chain: seq<nat>)

  /** Equivalent keys hash alike. */
  ghost predicate Compatible<K(!new)>(less: (K, K) -> bool, hash: K -> nat) {
    forall a, b :: Level(less, a, b) ==> hash(a) == hash(b)
  }

  function Live(ts: seq<Tree>): set<nat> {
    if ts == [] then {} else Slots(ts[0]) + Live(ts[1..])
  }

  /** Where a slot belongs. */
  predicate Home<K, V>(hash: K -> nat, n: nat, elems: seq<(K, V)>, x: nat, b: nat) {
    x < |elems| && n > 0 && hash(elems[x].0) % n == b
  }

  ghost predicate BucketOk<K, V>(less: (K, K) -> bool, hash: K -> nat, n: nat, nodes: seq<Cell>, elems: seq<(K, V)>,
      r: TreeRoot, t: Tree, b: nat) {
    && IsTree(nodes, r, t) && !r.counted && !r.ends
    && Sorted(less, elems, Inorder(t))
    && forall x :: x in Slots(t) ==> Home(hash, n, elems, x, b)
  }

  ghost predicate BucketsOk<K, V>(less: (K, K) -> bool, hash: K -> nat, nodes: seq<Cell>, elems: seq<(K, V)>,
      buckets: seq<TreeRoot>, ts: seq<Tree>) {
    && |ts| == |buckets|
    && forall b :: 0 <= b < |buckets| ==> BucketOk(less, hash, |buckets|, nodes, elems, buckets[b], ts[b], b)
  }

  /** No two live slots hold equivalent keys. */
  ghost predicate AllDiffer<K, V>(less: (K, K) -> bool, elems: seq<(K, V)>, live: set<nat>) {
    forall x, y :: x in live && y in live && x != y && x < |elems| && y < |elems| ==>
      !Level(less, elems[x].0, elems[y].0)
  }

  ghost predicate TableOk<K(!new), V>(less: (K, K) -> bool, hash: K -> nat, p: Table<K, V>, g: Trees) {
    && StrictWeakOrder(less) && Compatible(less, hash)
    && BucketsOk(less, hash, p.nodes, p.elems, p.buckets, g.trees)
    && AllDiffer(less, p.elems, Live(g.trees))
    && PoolOk(p.nodes, |p.elems|, p.freeList, g.chain, Live(g.trees), {})
    && p.freeCount == |g.chain|
    && (p.elems != [] ==> p.buckets != [])
  }

  // ---- The set of live slots.

  lemma {:induction false} LiveMembers(ts: seq<Tree>)
    ensures forall x :: x in Live(ts) <==> exists b :: 0 <= b < |ts| && x in Slots(ts[b])
  {
    if ts == [] {
    } else {
      LiveMembers(ts[1..]);
      forall x | x in Live(ts) ensures exists b :: 0 <= b < |ts| && x in Slots(ts[b]) {
        if x !in Slots(ts[0]) {
          assert x in Live(ts[1..]);
          var b :| 0 <= b < |ts[1..]| && x in Slots(ts[1..][b]);
          assert x in Slots(ts[b + 1]);
        }
      }
      forall x | exists b :: 0 <= b < |ts| && x in Slots(ts[b]) ensures x in Live(ts) {
        var b :| 0 <= b < |ts| && x in Slots(ts[b]);
        if b > 0 { assert ts[1..][b - 1] == ts[b]; }
      }
    }
  }

  lemma {:induction false} LiveAdd(ts: seq<Tree>, b: nat, t: Tree, x: nat)
    requires b < |ts| && Slots(t) == Slots(ts[b]) + {x}
    ensures Live(ts[b := t]) == Live(ts) + {x}
    decreases b
  {
    var us := ts[b := t];
    if b == 0 {
      assert us[1..] == ts[1..];
    } else {
      assert us[1..] == ts[1..][b - 1 := t];
      LiveAdd(ts[1..], b - 1, t, x);
    }
  }

  /** A slot that is in no other tree. */
  lemma LiveDrop(ts: seq<Tree>, b: nat, t: Tree, x: nat)
    requires b < |ts| && x in Slots(ts[b]) && Slots(t) == Slots(ts[b]) - {x}
    requires forall i :: 0 <= i < |ts| && i != b ==> x !in Slots(ts[i])
    ensures Live(ts[b := t]) == Live(ts) - {x}
  {
    var us := ts[b := t];
    LiveMembers(ts);
    LiveMembers(us);
    forall y | y in Live(us) ensures y in Live(ts) - {x} {
      var i :| 0 <= i < |us| && y in Slots(us[i]);
      assert y in Slots(ts[i]);
    }
    forall y | y in Live(ts) && y != x ensures y in Live(us) {
      var i :| 0 <= i < |ts| && y in Slots(ts[i]);
      assert y in Slots(us[i]);
    }
  }

  // ---- Other buckets do not notice.

  lemma OtherBucket<K, V>(less: (K, K) -> bool, hash: K -> nat, n: nat, nodes: seq<Cell>, nodes': seq<Cell>,
      elems: seq<(K, V)>, elems': seq<(K, V)>,
                          r: TreeRoot, t: Tree, b: nat)
    requires BucketOk(less, hash, n, nodes, elems, r, t, b)
    requires SameOn(nodes, nodes', Slots(t)) && |elems| <= |elems'|
    requires forall x :: x in Slots(t) && x < |elems| ==> elems'[x] == elems[x]
    ensures BucketOk(less, hash, n, nodes', elems', r, t, b)
  {
    RepFrame(nodes, nodes', t, NIL, NIL);
    SlotsAreInorder(t);
    var s := Inorder(t);
    assert forall i :: 0 <= i < |s| ==> s[i] in Slots(t);
    assert forall i :: 0 <= i < |s| ==> elems'[s[i]] == elems[s[i]];
  }

  /** Trees of different buckets share no slot. */
  lemma Separate<K, V>(hash: K -> nat, n: nat, elems: seq<(K, V)>, t: Tree, u: Tree, b: nat, c: nat)
    requires b != c
    requires forall x :: x in Slots(t) ==> Home(hash, n, elems, x, b)
    requires forall x :: x in Slots(u) ==> Home(hash, n, elems, x, c)
    ensures Slots(t) !! Slots(u)
  {
    forall x | x in Slots(t) ensures x !in Slots(u) {
      assert Home(hash, n, elems, x, b);
    }
  }

  /** One bucket changes within its own slots and at most one more, outside all trees. */
  lemma OneBucket<K, V>(less: (K, K) -> bool, hash: K -> nat, nodes: seq<Cell>, nodes': seq<Cell>,
      elems: seq<(K, V)>, elems': seq<(K, V)>,
                        buckets: seq<TreeRoot>, ts: seq<Tree>, b: nat, r: TreeRoot, t: Tree, w: set<nat>)
    requires BucketsOk(less, hash, nodes, elems, buckets, ts) && b < |buckets| && |elems| <= |elems'|
    requires BucketOk(less, hash, |buckets|, nodes', elems', r, t, b)
    requires |nodes| == |nodes'| && (forall i :: 0 <= i < |nodes| && i !in Slots(ts[b]) && i !in w ==>
        nodes'[i] == nodes[i])
    requires forall x :: x in Live(ts) && x < |elems| ==> elems'[x] == elems[x]
    requires w !! Live(ts)
    ensures BucketsOk(less, hash, nodes', elems', buckets[b := r], ts[b := t])
  {
    LiveMembers(ts);
    var bs, us := buckets[b := r], ts[b := t];
    forall c | 0 <= c < |bs| ensures BucketOk(less, hash, |bs|, nodes', elems', bs[c], us[c], c) {
      if c != b {
        assert BucketOk(less, hash, |buckets|, nodes, elems, buckets[c], ts[c], c);
        assert BucketOk(less, hash, |buckets|, nodes, elems, buckets[b], ts[b], b);
        Separate(hash, |buckets|, elems, ts[c], ts[b], c, b);
        assert forall x :: x in Slots(ts[c]) ==> x in Live(ts);
        OtherBucket(less, hash, |buckets|, nodes, nodes', elems, elems', buckets[c], ts[c], c);
      }
    }
  }

  // ---- Taking a slot.

  /** A freed slot if there is one, else the first beyond those used; the element is constructed in it. */
  method TakeSlot<K, V>(nodes: seq<Cell>, elems: seq<(K, V)>, freeCount: nat, freeList: int, x: (K, V),
      ghost chain: seq<nat>, ghost live: set<nat>)
    returns (elems': seq<(K, V)>, freeCount': nat, freeList': int, offset: nat, ghost chain': seq<nat>)
    requires PoolOk(nodes, |elems|, freeList, chain, live, {}) && freeCount == |chain|
    requires chain == [] ==> |elems| < |nodes|
    ensures PoolOk(nodes, |elems'|, freeList', chain', live + {offset}, {}) && freeCount' == |chain'|
    ensures offset !in live && offset < |elems'| && elems'[offset] == x && |elems| <= |elems'|
    ensures forall i :: i in live && i < |elems| ==> elems'[i] == elems[i]
  {
    offset := if freeList == NIL then |elems| else freeList;
    if offset == freeList {
      PoolTake(nodes, |elems|, freeList, chain, live, {});
      elems', freeList', freeCount', chain' := elems[offset := x], nodes[offset].left.to, freeCount - 1, chain[1..];
    } else {
      PoolGrow(nodes, nodes, |elems|, freeList, chain, live, {});
      elems', freeList', freeCount', chain' := elems + [x], freeList, freeCount, chain;
    }
  }

  // ---- Insertion into one bucket.

  /** Searching `key` in a bucket, in terms of slots. */
  lemma BucketCut<K(!new), V>(less: (K, K) -> bool, hash: K -> nat, n: nat, nodes: seq<Cell>, elems: seq<(K, V)>,
      r: TreeRoot, t: Tree, b: nat, key: K)
    requires StrictWeakOrder(less) && BucketOk(less, hash, n, nodes, elems, r, t, b)
    ensures Cut(Inorder(t), BelowKey(less, elems, key), AboveKey(less, elems, key))
  {
    KeyCut(less, elems, Inorder(t), key);
  }

  /** The bucket tree after an insertion in the hole of `c`. */
  lemma BucketInserted<K(!new), V>(less: (K, K) -> bool, hash: K -> nat, n: nat, nodes: seq<Cell>, nodes': seq<Cell>,
      elems: seq<(K, V)>,
                                   r: TreeRoot, r': TreeRoot, c: Ctx, x: nat, t: Tree, b: nat)
    requires BucketOk(less, hash, n, nodes, elems, r, Fill(c, Nil), b)
    requires IsTree(nodes', r', t) && !r'.counted && !r'.ends && Inorder(t) == Before(c) + [x] + After(c)
    requires Belongs(less, false, elems, c, x) && Home(hash, n, elems, x, b)
    ensures BucketOk(less, hash, n, nodes', elems, r', t, b) && Slots(t) == Slots(Fill(c, Nil)) + {x}
  {
    FillInorder(c, Nil);
    assert Before(c) + Inorder(Nil) + After(c) == Before(c) + After(c);
    InsertSorted(less, elems, Before(c), x, After(c));
    InsertedSlots(c, x, t);
    FillSlots(c, Nil);
  }

  /** The bucket tree after the removal of the root of `t`. */
  lemma BucketRemoved<K(!new), V>(less: (K, K) -> bool, hash: K -> nat, n: nat, nodes: seq<Cell>, nodes': seq<Cell>,
      elems: seq<(K, V)>,
                                  r: TreeRoot, r': TreeRoot, c: Ctx, t: Tree, u: Tree, b: nat)
    requires t.Bin? && BucketOk(less, hash, n, nodes, elems, r, Fill(c, t), b)
    requires IsTree(nodes', r', u) && !r'.counted && !r'.ends
    requires Inorder(u) == (Before(c) + Inorder(t.left)) + (Inorder(t.right) + After(c))
    ensures BucketOk(less, hash, n, nodes', elems, r', u, b) && Slots(u) == Slots(Fill(c, t)) - {t.slot}
  {
    var x, y := Before(c) + Inorder(t.left), Inorder(t.right) + After(c);
    NodeInOrder(c, t);
    RemoveSorted(less, elems, x, t.slot, y);
    DistinctInorder(Fill(c, t));
    RemovedSlots(x, t.slot, y, Fill(c, t), u);
  }

  // ---- The table as a finite map from slots to elements, no two of them with equivalent keys.

  ghost function Entries<K, V>(p: Table<K, V>, g: Trees): map<nat, (K, V)> {
    Held(p.elems, Live(g.trees))
  }

  lemma {:induction false} SlotsBelow(ts: seq<Tree>, b: nat)
    requires b < |ts|
    ensures Slots(ts[b]) <= Live(ts)
  {
    LiveMembers(ts);
  }

  lemma SubsetSize(a: set<nat>, b: set<nat>)
    requires a <= b
    ensures |a| <= |b|
  {
    assert b == a + (b - a);
    assert |a + (b - a)| == |a| + |b - a|;
  }

  /** A tree over fewer slots than the stack can take is not deeper than the stack. */
  lemma TreeHeight(t: Tree, m: nat, depth: nat)
    requires RedBlack(t) && Distinct(t) && Fits(m, depth) && forall x :: x in Slots(t) ==> x < m
    ensures Height(t) <= depth
  {
    UptoMembers(m);
    assert forall x :: x in Slots(t) ==> x in Upto(m);
    SubsetSize(Slots(t), Upto(m));
    DistinctInorder(t);
    SlotsAreInorder(t);
    ElementsSize(Inorder(t));
    assert Elements(Inorder(t)) == Slots(t);
    HeightBound(t, depth);
  }

  lemma BucketHeight<K(!new), V>(less: (K, K) -> bool, hash: K -> nat, nodes: seq<Cell>, elems: seq<(K, V)>,
      buckets: seq<TreeRoot>, ts: seq<Tree>, b: nat, depth: nat)
    requires BucketsOk(less, hash, nodes, elems, buckets, ts) && b < |buckets| && Fits(|elems|, depth)
    ensures Height(ts[b]) <= depth
  {
    assert BucketOk(less, hash, |buckets|, nodes, elems, buckets[b], ts[b], b);
    assert forall x :: x in Slots(ts[b]) ==> Home(hash, |buckets|, elems, x, b);
    TreeHeight(ts[b], |elems|, depth);
  }

  /** A key that differs from those of its home bucket differs from all. */
  lemma DiffersEverywhere<K(!new), V>(less: (K, K) -> bool, hash: K -> nat, p: Table<K, V>, g: Trees, b: nat, key: K)
    requires TableOk(less, hash, p, g) && p.buckets != [] && b == hash(key) % |p.buckets|
    requires forall x :: x in Inorder(g.trees[b]) ==> BelowKey(less, p.elems, key)(x) || AboveKey(less, p.elems, key)(x)
    ensures forall x :: x in Live(g.trees) && x < |p.elems| ==> !Level(less, p.elems[x].0, key)
  {
    LiveMembers(g.trees);
    SlotsAreInorder(g.trees[b]);
    forall x | x in Live(g.trees) && x < |p.elems| ensures !Level(less, p.elems[x].0, key) {
      var c :| 0 <= c < |g.trees| && x in Slots(g.trees[c]);
      assert BucketOk(less, hash, |p.buckets|, p.nodes, p.elems, p.buckets[c], g.trees[c], c);
      assert Home(hash, |p.buckets|, p.elems, x, c);
      assert c == b ==> x in Inorder(g.trees[b]);
    }
  }

  lemma DifferAdd<K(!new), V>(less: (K, K) -> bool, elems: seq<(K, V)>, elems': seq<(K, V)>, live: set<nat>, x: nat)
    requires AllDiffer(less, elems, live) && |elems| <= |elems'| && x < |elems'| && x !in live
    requires forall i :: i in live ==> i < |elems| && elems'[i] == elems[i] && !Level(less, elems[i].0, elems'[x].0)
    ensures AllDiffer(less, elems', live + {x})
  {
  }

  /** The buckets do not notice changes outside their slots. */
  lemma BucketsUnnoticed<K, V>(less: (K, K) -> bool, hash: K -> nat, nodes: seq<Cell>, nodes': seq<Cell>,
      elems: seq<(K, V)>, elems': seq<(K, V)>,
                               buckets: seq<TreeRoot>, ts: seq<Tree>)
    requires BucketsOk(less, hash, nodes, elems, buckets, ts)
    requires SameOn(nodes, nodes', Live(ts)) && |elems| <= |elems'|
    requires forall x :: x in Live(ts) && x < |elems| ==> elems'[x] == elems[x]
    ensures BucketsOk(less, hash, nodes', elems', buckets, ts)
  {
    forall b | 0 <= b < |buckets| ensures BucketOk(less, hash, |buckets|, nodes', elems', buckets[b], ts[b], b) {
      SlotsBelow(ts, b);
      OtherBucket(less, hash, |buckets|, nodes, nodes', elems, elems', buckets[b], ts[b], b);
    }
  }

  /** Links the slot `x` into bucket `b`, at the end of the path on the stack. */
  method LinkInBucket<K(!new), V>(less: (K, K) -> bool, hash: K -> nat, nodes: seq<Cell>, elems: seq<(K, V)>,
      buckets: seq<TreeRoot>,
                                  stack: PathStack, x: nat, b: nat, ghost c: Ctx, ghost ts: seq<Tree>)
    returns (nodes': seq<Cell>, buckets': seq<TreeRoot>, ghost ts': seq<Tree>)
    requires BucketsOk(less, hash, nodes, elems, buckets, ts) && b < |buckets|
    requires Home(hash, |buckets|, elems, x, b) && x !in Live(ts) && x < |nodes|
    requires stack.height <= stack.entries.Length && OnStack(c, stack.entries[..], stack.height) &&
        Fill(c, Nil) == ts[b]
    requires Belongs(less, false, elems, c, x)
    ensures BucketsOk(less, hash, nodes', elems, buckets', ts') && |buckets'| == |buckets|
    ensures Live(ts') == Live(ts) + {x} && SameOutside(nodes, nodes', Live(ts) + {x})
  {
    assert BucketOk(less, hash, |buckets|, nodes, elems, buckets[b], ts[b], b);
    SlotsBelow(ts, b);
    FillSlots(c, Nil);
    var root;
    ghost var t;
    root, nodes', t := Insertion.Insert(buckets[b], nodes, stack, x, c);
    BucketInserted(less, hash, |buckets|, nodes, nodes', elems, buckets[b], root, c, x, t, b);
    OneBucket(less, hash, nodes, nodes', elems, elems, buckets, ts, b, root, t, {x});
    LiveAdd(ts, b, t, x);
    buckets', ts' := buckets[b := root], ts[b := t];
  }

  /** A slot for `x` in its home bucket, at the end of the path on the stack. */
  method AddToBucket<K(!new), V>(less: (K, K) -> bool, hash: K -> nat, p: Table<K, V>, stack: PathStack, x: (K, V),
      b: nat, ghost c: Ctx, ghost g: Trees)
    returns (p': Table<K, V>, offset: nat, ghost g': Trees)
    requires TableOk(less, hash, p, g) && p.buckets != [] && b == hash(x.0) % |p.buckets|
    requires g.chain == [] ==> |p.elems| < |p.nodes|
    requires stack.height <= stack.entries.Length && OnStack(c, stack.entries[..], stack.height) &&
        Fill(c, Nil) == g.trees[b]
    requires Between(c, BelowKey(less, p.elems, x.0), AboveKey(less, p.elems, x.0))
    ensures TableOk(less, hash, p', g') && |p'.nodes| == |p.nodes| && |p'.buckets| == |p.buckets|
    ensures offset !in Live(g.trees) && Live(g'.trees) == Live(g.trees) + {offset}
    ensures Entries(p', g') == Entries(p, g)[offset := x]
  {
    NothingLevel(c, BelowKey(less, p.elems, x.0), AboveKey(less, p.elems, x.0));
    DiffersEverywhere(less, hash, p, g, b, x.0);
    ghost var live := Live(g.trees);
    UptoMembers(|p.elems|);
    assert live <= Upto(|p.elems|);
    var elems, freeCount, freeList;
    ghost var chain;
    elems, freeCount, freeList, offset, chain := TakeSlot(p.nodes, p.elems, p.freeCount, p.freeList, x, g.chain, live);
    DifferAdd(less, p.elems, elems, live, offset);
    HeldAdd(p.elems, elems, live, offset);
    BucketBelongs(less, hash, p, g, b, c, elems, offset);
    BucketsUnnoticed(less, hash, p.nodes, p.nodes, p.elems, elems, p.buckets, g.trees);
    var nodes, buckets;
    ghost var ts;
    nodes, buckets, ts := LinkInBucket(less, hash, p.nodes, elems, p.buckets, stack, offset, b, c, g.trees);
    PoolFrame(p.nodes, nodes, |elems|, freeList, chain, live + {offset}, {});
    p', g' := Table(buckets, nodes, elems, freeCount, freeList), Trees(ts, chain);
  }

  lemma BucketBelongs<K(!new), V>(less: (K, K) -> bool, hash: K -> nat, p: Table<K, V>, g: Trees, b: nat, c: Ctx,
      elems: seq<(K, V)>, x: nat)
    requires TableOk(less, hash, p, g) && b < |p.buckets| && Fill(c, Nil) == g.trees[b]
    requires |p.elems| <= |elems| && x < |elems|
    requires forall i :: i in Live(g.trees) && i < |p.elems| ==> elems[i] == p.elems[i]
    requires Between(c, BelowKey(less, p.elems, elems[x].0), AboveKey(less, p.elems, elems[x].0))
    ensures Belongs(less, false, elems, c, x)
  {
    assert BucketOk(less, hash, |p.buckets|, p.nodes, p.elems, p.buckets[b], g.trees[b], b);
    SlotsBelow(g.trees, b);
    BetweenKeys(less, false, p.elems, elems, c, x);
  }

  /** The path to the key in its bucket: to the slot that has it, or to the place where it belongs. */
  method LocateKey<K(!new), V>(less: (K, K) -> bool, hash: K -> nat, p: Table<K, V>, stack: PathStack, key: K,
      ghost g: Trees)
    returns (found: bool, ghost c: Ctx, ghost t: Tree)
    requires TableOk(less, hash, p, g) && p.buckets != [] && Fits(|p.elems|, stack.entries.Length)
    modifies stack, stack.entries
    ensures stack.height <= stack.entries.Length && stack.height <= stack.reach
    ensures Fill(c, t) == g.trees[hash(key) % |p.buckets|]
    ensures Height(Fill(c, t)) <= stack.entries.Length
    ensures found ==> t.Bin? && stack.height > 0 && OnStack(c, stack.entries[..], stack.height - 1)
    ensures found ==> stack.entries[stack.height - 1] == Entry(t.slot, false)
    ensures found ==> t.slot in Entries(p, g) && Level(less, Entries(p, g)[t.slot].0, key)
    ensures !found ==> t == Nil && OnStack(c, stack.entries[..], stack.height)
    ensures !found ==> Between(c, BelowKey(less, p.elems, key), AboveKey(less, p.elems, key))
    ensures !found ==> forall i :: i in Entries(p, g) ==> !Level(less, Entries(p, g)[i].0, key)
  {
    var b := hash(key) % |p.buckets|;
    var below, above := BelowKey(less, p.elems, key), AboveKey(less, p.elems, key);
    assert BucketOk(less, hash, |p.buckets|, p.nodes, p.elems, p.buckets[b], g.trees[b], b);
    BucketCut(less, hash, |p.buckets|, p.nodes, p.elems, p.buckets[b], g.trees[b], b, key);
    BucketHeight(less, hash, p.nodes, p.elems, p.buckets, g.trees, b, stack.entries.Length);
    UniquePathLengthBound(g.trees[b], below, above);
    var ok;
    ok, found, c, t := FindPathForUnique(p.nodes, p.buckets[b].root, stack, below, above, g.trees[b]);
    if found {
      PresentInBucket(less, hash, p, g, b, t.slot);
    } else {
      NothingLevel(c, below, above);
      DiffersEverywhere(less, hash, p, g, b, key);
    }
  }

  /** Insertion without a growth check. */
  method InsertUncheck<K(!new), V>(less: (K, K) -> bool, hash: K -> nat, depth: nat, p: Table<K, V>, x: (K, V),
      ghost g: Trees)
    returns (p': Table<K, V>, offset: nat, inserted: bool, ghost g': Trees)
    requires TableOk(less, hash, p, g) && p.buckets != [] && Fits(|p.elems|, depth)
    requires g.chain == [] ==> |p.elems| < |p.nodes|
    ensures TableOk(less, hash, p', g') && |p'.nodes| == |p.nodes| && |p'.buckets| == |p.buckets|
    ensures inserted ==> offset !in Live(g.trees) && Entries(p', g') == Entries(p, g)[offset := x]
    ensures inserted ==> forall i :: i in Entries(p, g) ==> !Level(less, Entries(p, g)[i].0, x.0)
    ensures !inserted ==> p' == p && g' == g && offset in Entries(p, g) && Level(less, Entries(p, g)[offset].0, x.0)
  {
    var b := hash(x.0) % |p.buckets|;
    var stack := new PathStack(depth);
    ghost var c, t;
    var found;
    found, c, t := LocateKey(less, hash, p, stack, x.0, g);
    p', g', inserted := p, g, !found;
    if found {
      offset := stack.entries[stack.height - 1].slot;
    } else {
      p', offset, g' := AddToBucket(less, hash, p, stack, x, b, c, g);
    }
  }

  lemma PresentInBucket<K(!new), V>(less: (K, K) -> bool, hash: K -> nat, p: Table<K, V>, g: Trees, b: nat, x: nat)
    requires TableOk(less, hash, p, g) && b < |p.buckets| && x in Inorder(g.trees[b])
    ensures x in Slots(g.trees[b]) && x in Entries(p, g) && x < |p.elems| && Entries(p, g)[x] == p.elems[x]
  {
    assert BucketOk(less, hash, |p.buckets|, p.nodes, p.elems, p.buckets[b], g.trees[b], b);
    SlotsAreInorder(g.trees[b]);
    SlotsBelow(g.trees, b);
    assert Home(hash, |p.buckets|, p.elems, x, b);
  }

  /** The slot of `key`, or the number of slots used so far if it is not there. */
  method FindValue<K(!new), V>(less: (K, K) -> bool, hash: K -> nat, p: Table<K, V>, key: K, ghost g: Trees)
      returns (offset: nat)
    requires TableOk(less, hash, p, g) && p.buckets != []
    ensures offset != |p.elems| ==> offset in Entries(p, g) && Level(less, Entries(p, g)[offset].0, key)
    ensures offset == |p.elems| ==> forall i :: i in Entries(p, g) ==> !Level(less, Entries(p, g)[i].0, key)
  {
    var b := hash(key) % |p.buckets|;
    ghost var t := g.trees[b];
    assert BucketOk(less, hash, |p.buckets|, p.nodes, p.elems, p.buckets[b], t, b);
    BucketCut(less, hash, |p.buckets|, p.nodes, p.elems, p.buckets[b], t, b, key);
    var w := LowerBound(p.nodes, p.buckets[b].root, BelowKey(less, p.elems, key), t);
    BucketBound(less, p.elems, t, key, w);
    if w == NIL || less(key, p.elems[w].0) {
      DiffersEverywhere(less, hash, p, g, b, key);
      offset := |p.elems|;
    } else {
      PresentInBucket(less, hash, p, g, b, w);
      offset := w;
    }
  }

  /** The first slot of a bucket not before `key` is level with it if any is. */
  lemma BucketBound<K(!new), V>(less: (K, K) -> bool, elems: seq<(K, V)>, t: Tree, key: K, w: int)
    requires InRange(elems, Inorder(t)) && Cut(Inorder(t), BelowKey(less, elems, key), AboveKey(less, elems, key))
    requires w == Nth(Inorder(t), Rank(Inorder(t), BelowKey(less, elems, key)))
    ensures w != NIL ==> 0 <= w < |elems| && w in Inorder(t) && !less(elems[w].0, key)
    ensures w == NIL || less(key, elems[w].0) ==>
              forall x :: x in Inorder(t) ==> BelowKey(less, elems, key)(x) || AboveKey(less, elems, key)(x)
  {
    FoundAtBound(less, Parts(EmptyRoot(false, false), [], elems, NIL), t, key, w);
  }

  // ---- Removal.

  /** A slot of bucket `b` is in no other bucket. */
  lemma OnlyHere<K, V>(less: (K, K) -> bool, hash: K -> nat, nodes: seq<Cell>, elems: seq<(K, V)>,
      buckets: seq<TreeRoot>, ts: seq<Tree>, b: nat, x: nat)
    requires BucketsOk(less, hash, nodes, elems, buckets, ts) && b < |buckets| && x in Slots(ts[b])
    ensures forall i :: 0 <= i < |ts| && i != b ==> x !in Slots(ts[i])
  {
    assert BucketOk(less, hash, |buckets|, nodes, elems, buckets[b], ts[b], b);
    assert Home(hash, |buckets|, elems, x, b);
    forall i | 0 <= i < |ts| && i != b ensures x !in Slots(ts[i]) {
      assert BucketOk(less, hash, |buckets|, nodes, elems, buckets[i], ts[i], i);
    }
  }

  /** Takes the node on top of the stack out of bucket `b`. */
  method UnlinkFromBucket<K(!new), V>(less: (K, K) -> bool, hash: K -> nat, nodes: seq<Cell>, elems: seq<(K, V)>,
      buckets: seq<TreeRoot>,
                                      stack: PathStack, b: nat, ghost c: Ctx, ghost t: Tree, ghost ts: seq<Tree>)
    returns (nodes': seq<Cell>, buckets': seq<TreeRoot>, ghost ts': seq<Tree>)
    requires BucketsOk(less, hash, nodes, elems, buckets, ts) && b < |buckets| && ts[b] == Fill(c, t) && t.Bin?
    requires 0 < stack.height <= stack.entries.Length && Height(ts[b]) <= stack.entries.Length
    requires stack.height <= stack.reach
    requires OnStack(c, stack.entries[..], stack.height - 1) && stack.entries[stack.height - 1] == Entry(t.slot, false)
    modifies stack`reach, stack.entries
    ensures BucketsOk(less, hash, nodes', elems, buckets', ts') && |buckets'| == |buckets|
    ensures t.slot in Live(ts) && Live(ts') == Live(ts) - {t.slot} && SameOutside(nodes, nodes', Live(ts))
    ensures t.slot < |nodes'| && nodes'[t.slot].empty
  {
    assert BucketOk(less, hash, |buckets|, nodes, elems, buckets[b], ts[b], b);
    FillSlots(c, t);
    SlotsBelow(ts, b);
    OnlyHere(less, hash, nodes, elems, buckets, ts, b, t.slot);
    var root;
    ghost var u;
    OnStackDepth(c, stack.entries[..], stack.height - 1);
    Removal.NeededByHeight(c, t);
    root, nodes', u := Removal.Remove(buckets[b], nodes, stack, c, t);
    BucketRemoved(less, hash, |buckets|, nodes, nodes', elems, buckets[b], root, c, t, u, b);
    OneBucket(less, hash, nodes, nodes', elems, elems, buckets, ts, b, root, u, {});
    LiveDrop(ts, b, u, t.slot);
    buckets', ts' := buckets[b := root], ts[b := u];
  }

  /** Chains a slot in front of the free list. */
  method PushFree(nodes: seq<Cell>, offset: nat, freeList: int, ghost live: set<nat>) returns (nodes': seq<Cell>)
    requires offset < |nodes| && nodes[offset].empty && offset !in live
    ensures nodes' == SetLink(nodes, offset, true, freeList) && SameOn(nodes, nodes', live)
  {
    nodes' := SetEmpty(nodes, offset, true);
    assert nodes'[offset] == nodes[offset];
    nodes' := SetLink(nodes', offset, true, freeList);
  }

  /** Takes the node on top of the stack out of bucket `b` and puts its slot at the head of the free list. */
  method DropFromBucket<K(!new), V>(less: (K, K) -> bool, hash: K -> nat, p: Table<K, V>, stack: PathStack, b: nat,
      ghost c: Ctx, ghost t: Tree, ghost g: Trees)
    returns (p': Table<K, V>, ghost g': Trees)
    requires TableOk(less, hash, p, g) && b < |p.buckets| && g.trees[b] == Fill(c, t) && t.Bin?
    requires 0 < stack.height <= stack.entries.Length && Height(g.trees[b]) <= stack.entries.Length
    requires stack.height <= stack.reach
    requires OnStack(c, stack.entries[..], stack.height - 1) && stack.entries[stack.height - 1] == Entry(t.slot, false)
    modifies stack`reach, stack.entries
    ensures TableOk(less, hash, p', g') && |p'.nodes| == |p.nodes| && |p'.buckets| == |p.buckets| && p'.elems == p.elems
    ensures t.slot in Entries(p, g) && Entries(p', g') == Entries(p, g) - {t.slot}
  {
    var offset := stack.entries[stack.height - 1].slot;
    var nodes, buckets;
    ghost var ts;
    nodes, buckets, ts := UnlinkFromBucket(less, hash, p.nodes, p.elems, p.buckets, stack, b, c, t, g.trees);
    p', g' := GiveSlot(less, hash, p, nodes, buckets, offset, ts, g);
  }

  /** The slot that has just left its tree goes to the head of the free list. */
  method GiveSlot<K(!new), V>(less: (K, K) -> bool, hash: K -> nat, p: Table<K, V>, nodes: seq<Cell>,
      buckets: seq<TreeRoot>, offset: nat,
    ghost ts: seq<Tree>, ghost g: Trees)
    returns (p': Table<K, V>, ghost g': Trees)
    requires TableOk(less, hash, p, g) && p.buckets != [] && |buckets| == |p.buckets|
    requires BucketsOk(less, hash, nodes, p.elems, buckets, ts) && SameOutside(p.nodes, nodes, Live(g.trees))
    requires offset in Live(g.trees) && offset < |nodes| && nodes[offset].empty && Live(ts) == Live(g.trees) - {offset}
    ensures TableOk(less, hash, p', g') && |p'.nodes| == |p.nodes| && |p'.buckets| == |p.buckets| && p'.elems == p.elems
    ensures offset in Entries(p, g) && Entries(p', g') == Entries(p, g) - {offset}
  {
    var nodes' := PushFree(nodes, offset, p.freeList, Live(ts));
    p' := Table(buckets, nodes', p.elems, p.freeCount + 1, offset);
    g' := Trees(ts, [offset] + g.chain);
    GivenOk(less, hash, p, g, nodes, offset, p', g');
  }

  lemma GivenOk<K(!new), V>(less: (K, K) -> bool, hash: K -> nat, p: Table<K, V>, g: Trees, nodes: seq<Cell>,
      offset: nat, p': Table<K, V>, g': Trees)
    requires TableOk(less, hash, p, g) && p.buckets != [] && |p'.buckets| == |p.buckets|
    requires BucketsOk(less, hash, nodes, p.elems, p'.buckets, g'.trees) && SameOutside(p.nodes, nodes, Live(g.trees))
    requires offset in Live(g.trees) && offset < |nodes| && nodes[offset].empty &&
        Live(g'.trees) == Live(g.trees) - {offset}
    requires p'.nodes == SetLink(nodes, offset, true, p.freeList) && SameOn(nodes, p'.nodes, Live(g'.trees))
    requires p'.elems == p.elems && p'.freeCount == p.freeCount + 1 && p'.freeList == offset &&
        g'.chain == [offset] + g.chain
    ensures TableOk(less, hash, p', g') && |p'.nodes| == |p.nodes|
    ensures offset in Entries(p, g) && Entries(p', g') == Entries(p, g) - {offset}
  {
    HeldDrop(p.elems, Live(g.trees), offset);
    GivenPool(p.nodes, nodes, |p.elems|, p.freeList, g.chain, Live(g.trees), offset);
    BucketsUnnoticed(less, hash, nodes, p'.nodes, p.elems, p.elems, p'.buckets, g'.trees);
  }

  lemma GivenPool(before: seq<Cell>, nodes: seq<Cell>, n: nat, free: int, chain: seq<nat>, live: set<nat>, offset: nat)
    requires PoolOk(before, n, free, chain, live, {}) && SameOutside(before, nodes, live)
    requires offset in live && offset < |nodes| && nodes[offset].empty
    ensures offset < n && PoolOk(SetLink(nodes, offset, true, free), n, offset, [offset] + chain, live - {offset}, {})
  {
    UptoMembers(n);
    assert offset in Upto(n);
    PoolFrame(before, nodes, n, free, chain, live, {});
    PoolGive(nodes, n, free, chain, live, {}, offset);
  }

  /** Removal by key. */
  method RemoveValue<K(!new), V>(less: (K, K) -> bool, hash: K -> nat, depth: nat, p: Table<K, V>, key: K,
      ghost g: Trees)
    returns (p': Table<K, V>, n: nat, ghost g': Trees, ghost offset: nat)
    requires TableOk(less, hash, p, g) && p.buckets != [] && Fits(|p.elems|, depth)
    ensures TableOk(less, hash, p', g') && |p'.nodes| == |p.nodes| && |p'.buckets| == |p.buckets| && p'.elems == p.elems
    ensures n == 1 ==> offset in Entries(p, g) && Level(less, Entries(p, g)[offset].0, key)
    ensures n == 1 ==> Entries(p', g') == Entries(p, g) - {offset}
    ensures n != 1 ==> n == 0 && p' == p && g' == g && forall i :: i in Entries(p, g) ==>
        !Level(less, Entries(p, g)[i].0, key)
  {
    var b := hash(key) % |p.buckets|;
    var stack := new PathStack(depth);
    ghost var c, t;
    var found;
    found, c, t := LocateKey(less, hash, p, stack, key, g);
    p', g', n, offset := p, g, 0, 0;
    if found {
      offset, n := t.slot, 1;
      p', g' := DropFromBucket(less, hash, p, stack, b, c, t, g);
    }
  }

  // ---- Rehashing in place.

  function LiveBelow(live: set<nat>, i: nat): set<nat> {
    set x | x in live && x < i
  }

  lemma {:induction false} EmptyBuckets<K, V>(less: (K, K) -> bool, hash: K -> nat, nodes: seq<Cell>,
      elems: seq<(K, V)>, buckets: seq<TreeRoot>, ts: seq<Tree>)
    requires |buckets| == |ts|
    requires forall b :: 0 <= b < |buckets| ==> buckets[b] == EmptyRoot(false, false)
    requires forall b :: 0 <= b < |ts| ==> ts[b] == Nil
    ensures BucketsOk(less, hash, nodes, elems, buckets, ts) && Live(ts) == {}
  {
    LiveMembers(ts);
    forall b | 0 <= b < |buckets| ensures BucketOk(less, hash, |buckets|, nodes, elems, buckets[b], ts[b], b) {
    }
  }

  /** Used cells among the first `|elems|` are exactly the live ones. */
  lemma UsedIsLive<K(!new), V>(less: (K, K) -> bool, hash: K -> nat, p: Table<K, V>, g: Trees, i: nat)
    requires TableOk(less, hash, p, g) && i < |p.elems|
    ensures i < |p.nodes| && (!p.nodes[i].empty <==> i in Live(g.trees))
  {
    UptoMembers(|p.elems|);
    ChainEmpty(p.nodes, p.freeList, g.chain);
    assert i in Upto(|p.elems|);
    LiveMembers(g.trees);
    if i in Live(g.trees) {
      var b :| 0 <= b < |g.trees| && i in Slots(g.trees[b]);
      assert BucketOk(less, hash, |p.buckets|, p.nodes, p.elems, p.buckets[b], g.trees[b], b);
      RepInPool(p.nodes, g.trees[b], NIL, NIL);
    }
  }

  /** Moves one slot into the new buckets. */
  method Move<K(!new), V>(less: (K, K) -> bool, hash: K -> nat, depth: nat, nodes: seq<Cell>, elems: seq<(K, V)>,
      buckets: seq<TreeRoot>, i: nat, ghost ts: seq<Tree>)
    returns (nodes': seq<Cell>, buckets': seq<TreeRoot>, ghost ts': seq<Tree>)
    requires StrictWeakOrder(less) && BucketsOk(less, hash, nodes, elems, buckets, ts) && buckets != [] &&
        Fits(|elems|, depth)
    requires i < |elems| && i < |nodes| && i !in Live(ts)
    ensures BucketsOk(less, hash, nodes', elems, buckets', ts') && |buckets'| == |buckets|
    ensures Live(ts') == Live(ts) + {i} && SameOutside(nodes, nodes', Live(ts) + {i})
  {
    var b := hash(elems[i].0) % |buckets|;
    var stack := new PathStack(depth);
    var above := AboveSlot(less, elems, i);
    assert BucketOk(less, hash, |buckets|, nodes, elems, buckets[b], ts[b], b);
    SlotCut(less, elems, Inorder(ts[b]), i);
    BucketHeight(less, hash, nodes, elems, buckets, ts, b, depth);
    PathLengthBound(ts[b], above);
    ghost var c;
    var ok;
    ok, c := FindPathForMulti(nodes, buckets[b].root, stack, above, ts[b]);
    SlotsBelow(ts, b);
    BetweenSlots(less, elems, c, i);
    nodes', buckets', ts' := LinkInBucket(less, hash, nodes, elems, buckets, stack, i, b, c, ts);
  }

  lemma LiveBelowStep(live: set<nat>, i: nat)
    ensures i !in LiveBelow(live, i)
    ensures LiveBelow(live, i + 1) == if i in live then LiveBelow(live, i) + {i} else LiveBelow(live, i)
  {
  }

  lemma SameOutsideStep(a: seq<Cell>, b: seq<Cell>, c: seq<Cell>, s: set<nat>, i: nat)
    requires SameOutside(a, b, s) && SameOutside(b, c, s + {i})
    ensures SameOutside(a, c, s + {i})
  {
  }

  /** Passes over all slots and moves the used ones.  At each step the new trees reach exactly the live
      slots passed so far, and all other cells are as they were. */
  method MoveAll<K(!new), V>(less: (K, K) -> bool, hash: K -> nat, depth: nat, nodes: seq<Cell>, elems: seq<(K, V)>,
      buckets: seq<TreeRoot>,
                             ghost live: set<nat>, ghost ts: seq<Tree>)
    returns (nodes': seq<Cell>, buckets': seq<TreeRoot>, ghost ts': seq<Tree>)
    requires StrictWeakOrder(less) && BucketsOk(less, hash, nodes, elems, buckets, ts) && Live(ts) == {} &&
        buckets != [] && Fits(|elems|, depth)
    requires |elems| <= |nodes| && forall i :: 0 <= i < |elems| ==> (!nodes[i].empty <==> i in live)
    ensures BucketsOk(less, hash, nodes', elems, buckets', ts') && |buckets'| == |buckets|
    ensures Live(ts') == LiveBelow(live, |elems|) && SameOutside(nodes, nodes', Live(ts'))
  {
    nodes', buckets', ts' := nodes, buckets, ts;
    var i := 0;
    while i < |elems|
      invariant i <= |elems| && |buckets'| == |buckets|
      invariant BucketsOk(less, hash, nodes', elems, buckets', ts')
      invariant Live(ts') == LiveBelow(live, i)
      invariant SameOutside(nodes, nodes', Live(ts'))
    {
      LiveBelowStep(live, i);
      if !nodes'[i].empty {
        ghost var before, moved := nodes', Live(ts');
        nodes', buckets', ts' := Move(less, hash, depth, nodes', elems, buckets', i, ts');
        SameOutsideStep(nodes, before, nodes', moved, i);
      }
      i := i + 1;
    }
  }

  lemma AllBelow<K(!new), V>(less: (K, K) -> bool, hash: K -> nat, p: Table<K, V>, g: Trees)
    requires TableOk(less, hash, p, g)
    ensures LiveBelow(Live(g.trees), |p.elems|) == Live(g.trees) && |p.elems| <= |p.nodes|
    ensures forall i :: 0 <= i < |p.elems| ==> (!p.nodes[i].empty <==> i in Live(g.trees))
  {
    UptoMembers(|p.elems|);
    assert Live(g.trees) <= Upto(|p.elems|);
    forall i | 0 <= i < |p.elems| ensures !p.nodes[i].empty <==> i in Live(g.trees) {
      UsedIsLive(less, hash, p, g, i);
    }
  }

  /** Rebuilds all bucket trees as `n` new ones, inside the cells that still hold the old links. */
  method Rehash<K(!new), V>(less: (K, K) -> bool, hash: K -> nat, depth: nat, p: Table<K, V>, n: nat, ghost g: Trees)
    returns (p': Table<K, V>, ghost g': Trees)
    requires TableOk(less, hash, p, g) && n > 0 && Fits(|p.elems|, depth)
    ensures TableOk(less, hash, p', g') && |p'.buckets| == n && |p'.nodes| == |p.nodes|
    ensures p'.elems == p.elems && p'.freeCount == p.freeCount && p'.freeList == p.freeList && g'.chain == g.chain
    ensures Live(g'.trees) == Live(g.trees) && Entries(p', g') == Entries(p, g)
    ensures SameOutside(p.nodes, p'.nodes, Live(g.trees))
  {
    ghost var live := Live(g.trees);
    var nodes, buckets := p.nodes, seq(n, _ => EmptyRoot(false, false));
    ghost var ts := seq(n, _ => Nil);
    EmptyBuckets(less, hash, nodes, p.elems, buckets, ts);
    AllBelow(less, hash, p, g);
    if p.buckets != [] {
      nodes, buckets, ts := MoveAll(less, hash, depth, nodes, p.elems, buckets, live, ts);
    }
    RehashedOk(less, hash, p, g, nodes, buckets, ts);
    p', g' := p.(buckets := buckets, nodes := nodes), g.(trees := ts);
  }

  lemma RehashedOk<K(!new), V>(less: (K, K) -> bool, hash: K -> nat, p: Table<K, V>, g: Trees, nodes: seq<Cell>,
      buckets: seq<TreeRoot>, ts: seq<Tree>)
    requires TableOk(less, hash, p, g) && BucketsOk(less, hash, nodes, p.elems, buckets, ts) && buckets != []
    requires Live(ts) == Live(g.trees) && SameOutside(p.nodes, nodes, Live(g.trees))
    ensures TableOk(less, hash, p.(buckets := buckets, nodes := nodes), g.(trees := ts))
  {
    PoolFrame(p.nodes, nodes, |p.elems|, p.freeList, g.chain, Live(g.trees), {});
  }

  // ---- Removal by slot.

  /** Removal of the element in a live slot, told from its bucket neighbours by key and slot number. */
  method RemoveOffset<K(!new), V>(less: (K, K) -> bool, hash: K -> nat, depth: nat, p: Table<K, V>, offset: nat,
      ghost g: Trees)
    returns (p': Table<K, V>, ghost g': Trees)
    requires TableOk(less, hash, p, g) && offset in Entries(p, g) && Fits(|p.elems|, depth)
    ensures TableOk(less, hash, p', g') && |p'.nodes| == |p.nodes| && |p'.buckets| == |p.buckets| && p'.elems == p.elems
    ensures Entries(p', g') == Entries(p, g) - {offset}
  {
    var b := hash(p.elems[offset].0) % |p.buckets|;
    var stack := new PathStack(depth);
    InHomeBucket(less, hash, p, g, offset);
    assert BucketOk(less, hash, |p.buckets|, p.nodes, p.elems, p.buckets[b], g.trees[b], b);
    BucketHeight(less, hash, p.nodes, p.elems, p.buckets, g.trees, b, depth);
    UniquePathLengthBound(g.trees[b], BelowSlot(less, p.elems, offset), AboveSlot(less, p.elems, offset));
    var ok;
    ghost var c, t;
    ok, c, t := PathToSlot(less, p.nodes, p.elems, p.buckets[b].root, stack, offset, g.trees[b]);
    p', g' := DropFromBucket(less, hash, p, stack, b, c, t, g);
  }

  lemma InHomeBucket<K(!new), V>(less: (K, K) -> bool, hash: K -> nat, p: Table<K, V>, g: Trees, x: nat)
    requires TableOk(less, hash, p, g) && x in Live(g.trees) && x < |p.elems|
    ensures p.buckets != [] && x in Slots(g.trees[hash(p.elems[x].0) % |p.buckets|])
  {
    LiveMembers(g.trees);
    var c :| 0 <= c < |g.trees| && x in Slots(g.trees[c]);
    assert BucketOk(less, hash, |p.buckets|, p.nodes, p.elems, p.buckets[c], g.trees[c], c);
    assert Home(hash, |p.buckets|, p.elems, x, c);
  }

  // ---- Growth.

  /** More cells behind the old ones. */
  method Realloc<K(!new), V>(less: (K, K) -> bool, hash: K -> nat, maxSize: nat, p: Table<K, V>, request: nat,
      ghost g: Trees)
    returns (p': Table<K, V>)
    requires TableOk(less, hash, p, g) && |p.nodes| <= Rounded(request) && |p.nodes| <= maxSize
    ensures TableOk(less, hash, p', g) && |p'.nodes| == Least(Rounded(request), maxSize)
    ensures p' == p.(nodes := p'.nodes) && p.nodes <= p'.nodes
  {
    var size := Rounded(request);
    if size > maxSize { size := maxSize; }
    var nodes := p.nodes + seq(size - |p.nodes|, _ => BLANK);
    UptoMembers(|p.elems|);
    BucketsUnnoticed(less, hash, p.nodes, nodes, p.elems, p.elems, p.buckets, g.trees);
    ChainedFrame(p.nodes, nodes, p.freeList, g.chain);
    p' := p.(nodes := nodes);
  }

  ghost predicate Limited<K(!new), V>(lim: Limits, p: Table<K, V>) {
    LimitsOk(lim) && Fits(lim.maxSize, lim.depth) && |p.nodes| <= lim.maxSize && |p.elems| <= |p.nodes|
  }

  method RehashFor<K(!new), V>(less: (K, K) -> bool, hash: K -> nat, lim: Limits, p: Table<K, V>, size: nat,
      ghost g: Trees)
    returns (p': Table<K, V>, ghost g': Trees)
    requires TableOk(less, hash, p, g) && Limited(lim, p)
    ensures TableOk(less, hash, p', g') && |p'.buckets| == BucketsFor(lim, size) && |p'.nodes| == |p.nodes|
    ensures p'.elems == p.elems && p'.freeCount == p.freeCount && p'.freeList == p.freeList && g'.chain == g.chain
    ensures Entries(p', g') == Entries(p, g)
  {
    var n := GetPrime(lim.primes, size);
    if n > lim.maxSize { n := lim.maxSize; }
    p', g' := Rehash(less, hash, lim.depth, p, n, g);
  }

  predicate AtLimit<K, V>(lim: Limits, p: Table<K, V>) { |p.buckets| >= lim.maxSize || |p.nodes| >= lim.maxSize }

  function NewSize<K, V>(p: Table<K, V>): int { |p.elems| - p.freeCount + 1 }

  function GrownBuckets<K, V>(lim: Limits, load: real, p: Table<K, V>): nat
    requires LimitsOk(lim)
  {
    if Crowded(NewSize(p), |p.buckets|, load) then BucketsFor(lim, 2 * |p.buckets|) else |p.buckets|
  }

  /** One more element keeps the load factor if the elements before it did, unless no more buckets are to be had or it
      is the first one and the load factor allows less than one element in all buckets together. */
  lemma GrownKeepsLoad<K, V>(lim: Limits, load: real, p: Table<K, V>)
    requires LimitsOk(lim) && load > 0.0 && NewSize(p) > 0
    requires (NewSize(p) - 1) as real <= |p.buckets| as real * load
    ensures
      var n := GrownBuckets(lim, load, p);
      NewSize(p) as real <= n as real * load || Capped(lim, n) || (NewSize(p) == 1 && n as real * load < 1.0)
  {
    if Crowded(NewSize(p), |p.buckets|, load) {
      var n := GrownBuckets(lim, load, p);
      BucketsReach(lim, 2 * |p.buckets|);
      if n >= 2 * |p.buckets| {
        LoadTwice(|p.buckets|, n, load);
        Doubled(NewSize(p), |p.buckets| as real * load, n as real * load);
      }
    }
  }

  lemma LoadTwice(m: nat, n: nat, load: real)
    requires load > 0.0 && n >= 2 * m
    ensures n as real * load >= 2.0 * (m as real * load)
  {
    assert (n - 2 * m) as real * load >= 0.0;
    assert n as real == (n - 2 * m) as real + 2.0 * m as real;
  }

  /** With a load factor of a tenth the first element is one too many for the five buckets it gets. */
  lemma LoadExceeded<K, V>(lim: Limits)
    requires LimitsOk(lim) && lim.primes[0] == 5 && lim.maxSize >= 5
    ensures
      var p, load := NoTable<K, V>(), 0.1;
      NewSize(p) == 1 && GrownBuckets(lim, load, p) as real * load < 1.0
  {
    assert GrownBuckets(lim, 0.1, NoTable<K, V>()) == 5;
  }

  /** The next insertion gets more slots if it asks for them. */
  predicate Steady<K, V>(lim: Limits, load: real, p: Table<K, V>)
    requires LimitsOk(lim) && load > 0.0
  {
    NewSize(p) > |p.nodes| ==> Rounded(Request(|p.nodes|, GrownBuckets(lim, load, p), load)) > |p.nodes|
  }

  /** `AtMaximum` is the length error; `Short` is a request that is rounded to no more slots than there are. */
  datatype Growth = Enough | AtMaximum | Short

  /** More buckets if the load would get too high, more cells if there is none left. */
  method CheckGrow<K(!new), V>(less: (K, K) -> bool, hash: K -> nat, lim: Limits, load: real, p: Table<K, V>,
      ghost g: Trees)
    returns (p': Table<K, V>, out: Growth, ghost g': Trees)
    requires TableOk(less, hash, p, g) && Limited(lim, p) && load > 0.0
    ensures TableOk(less, hash, p', g') && Limited(lim, p') && p'.elems == p.elems && p'.freeCount == p.freeCount
    ensures Entries(p', g') == Entries(p, g) && g'.chain == g.chain
    ensures out.Enough? ==> p'.buckets != [] && (g'.chain == [] ==> |p'.elems| < |p'.nodes|)
    ensures out.Enough? ==> |p'.buckets| == GrownBuckets(lim, load, p)
    ensures out.AtMaximum? ==> AtLimit(lim, p')
    ensures out.AtMaximum? <==> TooMany(lim, load, p)
    ensures out.Short? <==> !TooMany(lim, load, p) && !Steady(lim, load, p)
  {
    p', g', out := p, g, Enough;
    var newSize := NewSize(p);
    NewSizePositive(less, hash, p, g);
    if Crowded(newSize, |p.buckets|, load) {
      if |p.buckets| >= lim.maxSize {
        out := AtMaximum;
        return;
      }
      p', g' := RehashFor(less, hash, lim, p, 2 * |p.buckets|, g);
    }
    if newSize > |p'.nodes| {
      p', out := GrowSlots(less, hash, lim, load, p', g');
    }
  }

  method GrowSlots<K(!new), V>(less: (K, K) -> bool, hash: K -> nat, lim: Limits, load: real, p: Table<K, V>,
      ghost g: Trees)
    returns (p': Table<K, V>, out: Growth)
    requires TableOk(less, hash, p, g) && Limited(lim, p) && load > 0.0
    ensures TableOk(less, hash, p', g) && Limited(lim, p') && p' == p.(nodes := p'.nodes)
    ensures out.Enough? ==> |p'.nodes| > |p.nodes|
    ensures out.AtMaximum? <==> |p.nodes| >= lim.maxSize
    ensures out.Short? <==> |p.nodes| < lim.maxSize && Rounded(Request(|p.nodes|, |p.buckets|, load)) <= |p.nodes|
    ensures !out.Enough? ==> p' == p
  {
    p', out := p, AtMaximum;
    if |p.nodes| >= lim.maxSize {
      return;
    }
    var request := Request(|p.nodes|, |p.buckets|, load);
    if Rounded(request) <= |p.nodes| {
      out := Short;
      return;
    }
    out := Enough;
    p' := Realloc(less, hash, lim.maxSize, p, request, g);
  }

  /** The two length errors: no more buckets, or no more slots. */
  predicate TooMany<K, V>(lim: Limits, load: real, p: Table<K, V>) {
    || (Crowded(NewSize(p), |p.buckets|, load) && |p.buckets| >= lim.maxSize)
    || (NewSize(p) > |p.nodes| && |p.nodes| >= lim.maxSize)
  }

  /** As long as the byte count of the request does not wrap around, there are more slots. */
  lemma SteadyBelow<K, V>(lim: Limits, load: real, p: Table<K, V>)
    requires LimitsOk(lim) && load > 0.0 && NewSize(p) > 0
    requires |p.nodes| <= 0x0FFF_FFFF_FFFF_FF00
    requires GrownBuckets(lim, load, p) as real * load <= 0x1FFF_FFFF_FFFF_FE00 as real
    ensures Steady(lim, load, p)
  {
    assert GrownBuckets(lim, load, p) > 0 by {
      assert 0 as real * load == 0.0;
    }
    MoreSlots(|p.nodes|, GrownBuckets(lim, load, p), load);
  }

  /** An empty table with a load factor of 2^61 / 5 asks for 2^61 slots and gets none. */
  lemma SteadyFails<K, V>(lim: Limits)
    requires LimitsOk(lim) && lim.primes[0] == 5 && lim.maxSize >= 5
    ensures !Steady(lim, 0x2000_0000_0000_0000 as real / 5.0, NoTable<K, V>())
  {
    var load := 0x2000_0000_0000_0000 as real / 5.0;
    var p := NoTable<K, V>();
    assert GrownBuckets(lim, load, p) == 5;
    RequestExact(5, load, 0x2000_0000_0000_0000);
    RoundedWraps(0x2000_0000_0000_0000);
  }

  lemma NewSizePositive<K(!new), V>(less: (K, K) -> bool, hash: K -> nat, p: Table<K, V>, g: Trees)
    requires TableOk(less, hash, p, g)
    ensures NewSize(p) > 0 && (g.chain == [] ==> NewSize(p) == |p.elems| + 1)
  {
    PoolCount(p.nodes, |p.elems|, p.freeList, g.chain, Live(g.trees), {});
  }
}
