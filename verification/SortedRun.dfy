/** Whole runs of the sorted container against a finite map from handles to elements. */
module SortedRuns {
  import opened Shape
  import opened Heights
  import opened Threads
  import opened Search
  import opened Ordering
  import opened SlotPool
  import opened SortedContainers

  /** A handle is the slot an iterator stands on; `NIL` is the end. */
  datatype Op<K, V> =
    | Put(key: K, value: V)
    | Drop(key: K)
    | DropAt(handle: nat)
    | Lower(key: K)
    | Upper(key: K)
    | ReverseLower(key: K)
    | ReverseUpper(key: K)
    | Lookup(key: K)
    | Tally(key: K)
    | Size
    | Walk

  datatype Reply =
    | Stored(slot: nat)
    | Refused(slot: nat)
    | Number(n: nat)
    | At(where: int)
    | Invalid
    | Order(slots: seq<nat>)

  // ---- What the answers mean for the map.

  /** The order of iteration: by key, and among equivalent keys by handle. */
  ghost predicate Comes<K, V>(less: (K, K) -> bool, e: map<nat, (K, V)>, a: nat, b: nat) {
    a in e && b in e && (less(e[a].0, e[b].0) || (!less(e[b].0, e[a].0) && a < b))
  }

  /** `w` is the first handle that satisfies `f`, or the end if there is none. */
  ghost predicate First<K, V>(less: (K, K) -> bool, e: map<nat, (K, V)>, f: nat -> bool, w: int) {
    if w == NIL then forall i :: i in e ==> !f(i)
    else w >= 0 && w in e && f(w) && forall i :: i in e && f(i) && i != w ==> Comes(less, e, w, i)
  }

  /** `w` is the last handle that satisfies `f`, or the end if there is none. */
  ghost predicate Last<K, V>(less: (K, K) -> bool, e: map<nat, (K, V)>, f: nat -> bool, w: int) {
    if w == NIL then forall i :: i in e ==> !f(i)
    else w >= 0 && w in e && f(w) && forall i :: i in e && f(i) && i != w ==> Comes(less, e, i, w)
  }

  ghost function Smaller<K, V>(less: (K, K) -> bool, e: map<nat, (K, V)>, key: K): nat -> bool {
    (i: nat) => i in e && less(e[i].0, key)
  }

  ghost function Greater<K, V>(less: (K, K) -> bool, e: map<nat, (K, V)>, key: K): nat -> bool {
    (i: nat) => i in e && less(key, e[i].0)
  }

  ghost function Later<K, V>(less: (K, K) -> bool, e: map<nat, (K, V)>, handle: nat): nat -> bool {
    (i: nat) => Comes(less, e, handle, i)
  }

  /** What may be answered to an operation on the map `e`. */
  ghost predicate Correct<K, V>(less: (K, K) -> bool, unique: bool, e: map<nat, (K, V)>, op: Op<K, V>, r: Reply) {
    match op
    case Put(k, _) =>
      || (r.Stored? && r.slot !in e && (unique ==> Matching(less, e, k) == {}))
      || (r.Refused? && unique && r.slot in Matching(less, e, k))
    case Drop(k) => r == Number(|Matching(less, e, k)|)
    case DropAt(h) => if h in e then r.At? && First(less, e, Later(less, e, h), r.where) else r == Invalid
    case Lower(k) => r.At? && First(less, e, NotF(Smaller(less, e, k)), r.where)
    case Upper(k) => r.At? && First(less, e, Greater(less, e, k), r.where)
    case ReverseLower(k) => r.At? && Last(less, e, NotF(Greater(less, e, k)), r.where)
    case ReverseUpper(k) => r.At? && Last(less, e, Smaller(less, e, k), r.where)
    case Lookup(k) => r.At? && if r.where == NIL then Matching(less, e, k) == {} else r.where in Matching(less, e, k)
    case Tally(k) => r == Number(|Matching(less, e, k)|)
    case Size => r == Number(|e|)
    case Walk => r.Order? && InOrder(less, e, r.slots) && forall i: nat :: i in e <==> i in r.slots
  }

  ghost predicate InOrder<K, V>(less: (K, K) -> bool, e: map<nat, (K, V)>, s: seq<nat>) {
    forall i, j :: 0 <= i < j < |s| ==> Comes(less, e, s[i], s[j])
  }

  /** The map after an operation that was answered `r`. */
  ghost function After<K, V>(less: (K, K) -> bool, e: map<nat, (K, V)>, op: Op<K, V>, r: Reply): map<nat, (K, V)> {
    match op
    case Put(k, v) => if r.Stored? then e[r.slot := (k, v)] else e
    case Drop(k) => e - Matching(less, e, k)
    case DropAt(h) => e - {h}
    case _ => e
  }

  ghost function State<K, V>(less: (K, K) -> bool, ops: seq<Op<K, V>>, replies: seq<Reply>): map<nat, (K, V)>
    requires |replies| <= |ops|
    decreases |replies|
  {
    if replies == [] then map[] else
      var n := |replies| - 1;
      After(less, State(less, ops, replies[..n]), ops[n], replies[n])
  }

  // ---- The container's order is the order of the handles.

  lemma Handles<K, V>(p: Parts<K, V>, tree: Tree)
    requires InRange(p.elems, Inorder(tree))
    ensures forall i: nat :: i in BySlot(p, tree) <==> i in Inorder(tree)
    ensures forall i :: i in BySlot(p, tree) ==> i < |p.elems| && BySlot(p, tree)[i] == p.elems[i]
  {
    SlotsAreInorder(tree);
  }

  lemma HandlesInOrder<K, V>(less: (K, K) -> bool, p: Parts<K, V>, tree: Tree)
    requires Sorted(less, p.elems, Inorder(tree))
    ensures InOrder(less, BySlot(p, tree), Inorder(tree))
  {
    Handles(p, tree);
    var s := Inorder(tree);
    forall i, j | 0 <= i < j < |s| ensures Comes(less, BySlot(p, tree), s[i], s[j]) {
      assert SlotLess(less, p.elems, s[i], s[j]);
      assert s[i] in s && s[j] in s;
    }
  }

  lemma FirstAt<K, V>(less: (K, K) -> bool, p: Parts<K, V>, tree: Tree, f: nat -> bool, i: nat)
    requires Sorted(less, p.elems, Inorder(tree)) && i <= |Inorder(tree)|
    requires forall j :: 0 <= j < |Inorder(tree)| ==> (f(Inorder(tree)[j]) <==> i <= j)
    ensures First(less, BySlot(p, tree), f, Nth(Inorder(tree), i))
  {
    Handles(p, tree);
    HandlesInOrder(less, p, tree);
    var e, s := BySlot(p, tree), Inorder(tree);
    forall x | x in e && f(x) && x != Nth(s, i) ensures i < |s| && Comes(less, e, s[i], x) {
      var j :| 0 <= j < |s| && s[j] == x;
      assert i <= j;
    }
    if i < |s| { assert s[i] in s; }
  }

  lemma LastAt<K, V>(less: (K, K) -> bool, p: Parts<K, V>, tree: Tree, f: nat -> bool, i: nat)
    requires Sorted(less, p.elems, Inorder(tree)) && i <= |Inorder(tree)|
    requires forall j :: 0 <= j < |Inorder(tree)| ==> (f(Inorder(tree)[j]) <==> j < i)
    ensures Last(less, BySlot(p, tree), f, Nth(Inorder(tree), i - 1))
  {
    Handles(p, tree);
    HandlesInOrder(less, p, tree);
    var e, s := BySlot(p, tree), Inorder(tree);
    forall x | x in e && f(x) && x != Nth(s, i - 1) ensures 0 < i && Comes(less, e, x, s[i - 1]) {
      var j :| 0 <= j < |s| && s[j] == x;
      assert j < i;
    }
    if 0 < i { assert s[i - 1] in s; }
  }

  lemma LowerAnswers<K, V>(less: (K, K) -> bool, p: Parts<K, V>, tree: Tree, key: K, i: nat)
    requires Sorted(less, p.elems, Inorder(tree)) && LowerAt(less, Listing(p, tree), i, key)
    ensures First(less, BySlot(p, tree), NotF(Smaller(less, BySlot(p, tree), key)), Nth(Inorder(tree), i))
    ensures Last(less, BySlot(p, tree), Smaller(less, BySlot(p, tree), key), Nth(Inorder(tree), i - 1))
  {
    Handles(p, tree);
    var e, s, u := BySlot(p, tree), Inorder(tree), Listing(p, tree);
    assert forall j :: 0 <= j < |s| ==> s[j] in s && u[j] == e[s[j]];
    FirstAt(less, p, tree, NotF(Smaller(less, e, key)), i);
    LastAt(less, p, tree, Smaller(less, e, key), i);
  }

  lemma UpperAnswers<K, V>(less: (K, K) -> bool, p: Parts<K, V>, tree: Tree, key: K, i: nat)
    requires Sorted(less, p.elems, Inorder(tree)) && UpperAt(less, Listing(p, tree), i, key)
    ensures First(less, BySlot(p, tree), Greater(less, BySlot(p, tree), key), Nth(Inorder(tree), i))
    ensures Last(less, BySlot(p, tree), NotF(Greater(less, BySlot(p, tree), key)), Nth(Inorder(tree), i - 1))
  {
    Handles(p, tree);
    var e, s, u := BySlot(p, tree), Inorder(tree), Listing(p, tree);
    assert forall j :: 0 <= j < |s| ==> s[j] in s && u[j] == e[s[j]];
    FirstAt(less, p, tree, Greater(less, e, key), i);
    LastAt(less, p, tree, NotF(Greater(less, e, key)), i);
  }

  /** The slot after `slot` is the first later one. */
  lemma NextAnswers<K(!new), V>(less: (K, K) -> bool, p: Parts<K, V>, tree: Tree, slot: nat, next: int)
    requires StrictWeakOrder(less) && Sorted(less, p.elems, Inorder(tree)) && FollowedBy(Inorder(tree), slot, next)
    ensures First(less, BySlot(p, tree), Later(less, BySlot(p, tree), slot), next)
  {
    Handles(p, tree);
    HandlesInOrder(less, p, tree);
    var e, s := BySlot(p, tree), Inorder(tree);
    var i :| IsAt(s, i, slot) && next == Nth(s, i + 1);
    forall j | 0 <= j < |s| ensures Later(less, e, slot)(s[j]) <==> i + 1 <= j {
      SlotLessTotal(less, p.elems, s[i], s[j]);
      assert s[i] in s && s[j] in s;
      if j < i { assert Comes(less, e, s[j], s[i]); }
    }
    FirstAt(less, p, tree, Later(less, e, slot), i + 1);
  }

  // ---- Counting.

  ghost function LevelSlots<K, V>(less: (K, K) -> bool, elems: seq<(K, V)>, u: seq<nat>, key: K): set<nat> {
    set i | i in u && i < |elems| && Level(less, elems[i].0, key)
  }

  lemma LevelStep<K, V>(less: (K, K) -> bool, elems: seq<(K, V)>, x: nat, rest: seq<nat>, key: K)
    requires x !in rest && x < |elems|
    ensures |LevelSlots(less, elems, [x] + rest, key)|
      == |LevelSlots(less, elems, rest, key)| + if Level(less, elems[x].0, key) then 1 else 0
  {
    var here := if Level(less, elems[x].0, key) then {x} else {};
    assert LevelSlots(less, elems, [x] + rest, key) == LevelSlots(less, elems, rest, key) + here;
  }

  lemma {:induction false} LevelCount<K, V>(less: (K, K) -> bool, elems: seq<(K, V)>, u: seq<nat>, key: K)
    requires NoDuplicates(u) && InRange(elems, u)
    ensures |LevelSlots(less, elems, u, key)| == |View(elems, u)| - |Without(less, View(elems, u), key)|
  {
    if u == [] {
      assert LevelSlots(less, elems, u, key) == {};
    } else {
      assert u == [u[0]] + u[1..];
      LevelStep(less, elems, u[0], u[1..], key);
      LevelCount(less, elems, u[1..], key);
      assert View(elems, u)[1..] == View(elems, u[1..]);
    }
  }

  lemma MatchingCount<K(!new), V>(less: (K, K) -> bool, unique: bool, p: Parts<K, V>, g: Shadow, key: K)
    requires Whole(less, unique, p, g)
    ensures |Matching(less, BySlot(p, g.tree), key)| == |Listing(p, g.tree)| - |Without(less, Listing(p, g.tree), key)|
  {
    DistinctInorder(g.tree);
    LevelCount(less, p.elems, Inorder(g.tree), key);
    Handles(p, g.tree);
    assert Matching(less, BySlot(p, g.tree), key) == LevelSlots(less, p.elems, Inorder(g.tree), key);
  }

  lemma EntryCount<K(!new), V>(less: (K, K) -> bool, unique: bool, p: Parts<K, V>, g: Shadow)
    requires Whole(less, unique, p, g)
    ensures |BySlot(p, g.tree)| == |Listing(p, g.tree)| == p.root.count
  {
    SlotCount(less, unique, p, g);
    Handles(p, g.tree);
    SlotsAreInorder(g.tree);
    assert BySlot(p, g.tree).Keys == Slots(g.tree);
  }

  // ---- Single operations.

  method PerformPut<K(!new), V>(c: SortedContainer<K, V>, op: Op<K, V>) returns (r: Reply, ok: bool)
    requires c.Valid() && op.Put?
    modifies c
    ensures c.Valid()
    ensures ok ==> c.shadow.lost == old(c.shadow.lost) && Correct(c.less, c.unique, old(c.Elements()), op, r)
    ensures c.Elements() == if ok then After(c.less, old(c.Elements()), op, r) else old(c.Elements())
    ensures !ok ==> Full(c)
  {
    ghost var p, g := c.parts, c.shadow;
    EntryCount(c.less, c.unique, p, g);
    var out; ghost var at;
    out, at := c.Insert((op.key, op.value));
    ok := out.Inserted? || out.Present?;
    r := if out.Inserted? then Stored(out.slot) else if out.Present? then Refused(out.slot) else Invalid;
    Handles(p, g.tree);
    SlotsAreInorder(g.tree);
    if out.Inserted? && c.unique {
      NoneMatch(c.less, p, g.tree, at, op.key);
    } else if !ok {
      EntryCount(c.less, c.unique, c.parts, c.shadow);
    }
  }

  /** What may stop a run: no room for one more element, or too many for the stack of every path. */
  ghost predicate Full<K(!new), V>(c: SortedContainer<K, V>)
    reads c
  {
    |c.Elements()| >= c.maxSize - 1 || !Fits(|c.Elements()|, c.maxDepth)
  }

  /** With all elements strictly on either side of the key, none matches it. */
  lemma NoneMatch<K(!new), V>(less: (K, K) -> bool, p: Parts<K, V>, tree: Tree, k: nat, key: K)
    requires StrictWeakOrder(less) && InRange(p.elems, Inorder(tree)) && StrictlyAt(less, Listing(p, tree), k, key)
    ensures Matching(less, BySlot(p, tree), key) == {}
  {
    Handles(p, tree);
    var s := Inorder(tree);
    forall i | i in BySlot(p, tree) ensures !Level(less, BySlot(p, tree)[i].0, key) {
      var j :| 0 <= j < |s| && s[j] == i;
      assert Listing(p, tree)[j] == p.elems[i];
    }
  }

  method PerformDrop<K(!new), V>(c: SortedContainer<K, V>, op: Op<K, V>) returns (r: Reply, ok: bool)
    requires c.Valid() && op.Drop?
    modifies c
    ensures c.Valid() && c.shadow.lost == old(c.shadow.lost)
    ensures ok ==> Correct(c.less, c.unique, old(c.Elements()), op, r)
    ensures c.Elements() == if ok then After(c.less, old(c.Elements()), op, r) else old(c.Elements())
    ensures !ok ==> Full(c)
  {
    ghost var p, g := c.parts, c.shadow;
    EntryCount(c.less, c.unique, p, g);
    ok, r := Fits(c.Size(), c.maxDepth), Invalid;
    if !ok {
      return;
    }
    var n;
    FitsSpacious(|c.Contents()|, c.maxDepth);
    n, ok := c.EraseKey(op.key);
    r := Number(n);
    DropCount(c.less, c.unique, p, g, c.parts, c.shadow, op.key);
  }

  lemma DropCount<K(!new), V>(less: (K, K) -> bool, unique: bool, p: Parts<K, V>, g: Shadow, p': Parts<K, V>,
      g': Shadow, key: K)
    requires Whole(less, unique, p, g) && Whole(less, unique, p', g')
    requires BySlot(p', g'.tree) == BySlot(p, g.tree) - Matching(less, BySlot(p, g.tree), key)
    ensures |Matching(less, BySlot(p, g.tree), key)| == |Listing(p, g.tree)| - |Listing(p', g'.tree)|
  {
    EntryCount(less, unique, p, g);
    EntryCount(less, unique, p', g');
    var e, e' := BySlot(p, g.tree), BySlot(p', g'.tree);
    assert Matching(less, e, key) == e.Keys - e'.Keys;
    assert e'.Keys <= e.Keys;
  }

  method PerformDropAt<K(!new), V>(c: SortedContainer<K, V>, op: Op<K, V>) returns (r: Reply, ok: bool)
    requires c.Valid() && op.DropAt? && c.shadow.lost == {}
    modifies c
    ensures c.Valid() && c.shadow.lost == old(c.shadow.lost)
    ensures ok ==> Correct(c.less, c.unique, old(c.Elements()), op, r)
    ensures c.Elements() == if ok then After(c.less, old(c.Elements()), op, r) else old(c.Elements())
    ensures !ok ==> Full(c)
  {
    ghost var p, g := c.parts, c.shadow;
    r := Invalid;
    HandleFlags(c.less, c.unique, p, g, op.handle);
    if op.handle >= |c.parts.nodes| || c.parts.nodes[op.handle].empty {
      assert c.Elements() - {op.handle} == c.Elements();
      ok := true;
      return;
    }
    EntryCount(c.less, c.unique, p, g);
    ok := Fits(c.Size(), c.maxDepth);
    if !ok {
      return;
    }
    var next; ghost var k;
    FitsSpacious(|c.Contents()|, c.maxDepth);
    SpaciousSecure(c.shadow.tree, op.handle, c.maxDepth);
    ok, next, k := c.EraseAt(op.handle);
    r := At(next);
    DropAtCorrect(c.less, c.unique, p, g.tree, op, next);
    HeldDrop(p.elems, Slots(g.tree), op.handle);
  }

  lemma HandleFlags<K(!new), V>(less: (K, K) -> bool, unique: bool, p: Parts<K, V>, g: Shadow, handle: nat)
    requires Whole(less, unique, p, g) && g.lost == {}
    ensures handle in BySlot(p, g.tree) <==> handle < |p.nodes| && !p.nodes[handle].empty
  {
    Handles(p, g.tree);
    SlotsAreInorder(g.tree);
    SlotFlags(p.nodes, p.root.root, p.free, g);
  }

  lemma DropAtCorrect<K(!new), V>(less: (K, K) -> bool, unique: bool, p: Parts<K, V>, tree: Tree, op: Op<K, V>,
      next: int)
    requires op.DropAt? && op.handle in BySlot(p, tree)
    requires StrictWeakOrder(less) && Sorted(less, p.elems, Inorder(tree)) && FollowedBy(Inorder(tree), op.handle, next)
    ensures Correct(less, unique, BySlot(p, tree), op, At(next))
  {
    NextAnswers(less, p, tree, op.handle, next);
  }

  method PerformQuery<K(!new), V>(c: SortedContainer<K, V>, op: Op<K, V>) returns (r: Reply)
    requires c.Valid() && (op.Lookup? || op.Tally? || op.Size? || op.Walk?)
    ensures Correct(c.less, c.unique, c.Elements(), op, r)
  {
    if op.Lookup? {
      var w := c.Find(op.key);
      r := At(w);
      LookupCorrect(c.less, c.unique, c.parts, c.shadow.tree, op, w);
    } else if op.Tally? {
      var n := c.Count(op.key);
      r := Number(n);
      MatchingCount(c.less, c.unique, c.parts, c.shadow, op.key);
    } else if op.Size? {
      EntryCount(c.less, c.unique, c.parts, c.shadow);
      r := Number(c.Size());
    } else {
      var visited := c.Forward();
      r := Order(visited);
      WalkCorrect(c.less, c.unique, c.parts, c.shadow.tree, op);
    }
  }

  lemma LookupCorrect<K, V>(less: (K, K) -> bool, unique: bool, p: Parts<K, V>, tree: Tree, op: Op<K, V>, w: int)
    requires op.Lookup? && InRange(p.elems, Inorder(tree))
    requires w != NIL ==> 0 <= w < |p.elems| && w in Inorder(tree) && Level(less, p.elems[w].0, op.key)
    requires w == NIL ==> forall x :: x in Inorder(tree) && x < |p.elems| ==> !Level(less, p.elems[x].0, op.key)
    ensures Correct(less, unique, BySlot(p, tree), op, At(w))
  {
    Handles(p, tree);
  }

  lemma WalkCorrect<K, V>(less: (K, K) -> bool, unique: bool, p: Parts<K, V>, tree: Tree, op: Op<K, V>)
    requires op.Walk? && Sorted(less, p.elems, Inorder(tree))
    ensures Correct(less, unique, BySlot(p, tree), op, Order(Inorder(tree)))
  {
    Handles(p, tree);
    HandlesInOrder(less, p, tree);
  }

  method PerformBound<K(!new), V>(c: SortedContainer<K, V>, op: Op<K, V>) returns (r: Reply)
    requires c.Valid() && (op.Lower? || op.Upper? || op.ReverseLower? || op.ReverseUpper?)
    ensures Correct(c.less, c.unique, c.Elements(), op, r)
  {
    if op.Lower? {
      r := PerformLower(c, op);
    } else if op.Upper? {
      r := PerformUpper(c, op);
    } else if op.ReverseLower? {
      r := PerformReverseLower(c, op);
    } else {
      r := PerformReverseUpper(c, op);
    }
  }

  method PerformLower<K(!new), V>(c: SortedContainer<K, V>, op: Op<K, V>) returns (r: Reply)
    requires c.Valid() && op.Lower?
    ensures Correct(c.less, c.unique, c.Elements(), op, r)
  {
    var w := c.LowerBound(op.key);
    ghost var i: nat :| LowerAt(c.less, c.Contents(), i, op.key) && w == Nth(Inorder(c.shadow.tree), i);
    LowerCorrect(c.less, c.unique, c.parts, c.shadow.tree, op, i, w);
    r := At(w);
  }

  method PerformReverseUpper<K(!new), V>(c: SortedContainer<K, V>, op: Op<K, V>) returns (r: Reply)
    requires c.Valid() && op.ReverseUpper?
    ensures Correct(c.less, c.unique, c.Elements(), op, r)
  {
    var w := c.ReverseUpperBound(op.key);
    ghost var i: nat :| LowerAt(c.less, c.Contents(), i, op.key) && w == Nth(Inorder(c.shadow.tree), i - 1);
    LowerCorrect(c.less, c.unique, c.parts, c.shadow.tree, op, i, w);
    r := At(w);
  }

  lemma LowerCorrect<K, V>(less: (K, K) -> bool, unique: bool, p: Parts<K, V>, tree: Tree, op: Op<K, V>, i: nat, w: int)
    requires op.Lower? || op.ReverseUpper?
    requires Sorted(less, p.elems, Inorder(tree)) && LowerAt(less, Listing(p, tree), i, op.key)
    requires w == Nth(Inorder(tree), if op.Lower? then i else i - 1)
    ensures Correct(less, unique, BySlot(p, tree), op, At(w))
  {
    LowerAnswers(less, p, tree, op.key, i);
  }

  method PerformUpper<K(!new), V>(c: SortedContainer<K, V>, op: Op<K, V>) returns (r: Reply)
    requires c.Valid() && op.Upper?
    ensures Correct(c.less, c.unique, c.Elements(), op, r)
  {
    var w := c.UpperBound(op.key);
    ghost var i: nat :| UpperAt(c.less, c.Contents(), i, op.key) && w == Nth(Inorder(c.shadow.tree), i);
    UpperCorrect(c.less, c.unique, c.parts, c.shadow.tree, op, i, w);
    r := At(w);
  }

  method PerformReverseLower<K(!new), V>(c: SortedContainer<K, V>, op: Op<K, V>) returns (r: Reply)
    requires c.Valid() && op.ReverseLower?
    ensures Correct(c.less, c.unique, c.Elements(), op, r)
  {
    var w := c.ReverseLowerBound(op.key);
    ghost var i: nat :| UpperAt(c.less, c.Contents(), i, op.key) && w == Nth(Inorder(c.shadow.tree), i - 1);
    UpperCorrect(c.less, c.unique, c.parts, c.shadow.tree, op, i, w);
    r := At(w);
  }

  lemma UpperCorrect<K, V>(less: (K, K) -> bool, unique: bool, p: Parts<K, V>, tree: Tree, op: Op<K, V>, i: nat, w: int)
    requires op.Upper? || op.ReverseLower?
    requires Sorted(less, p.elems, Inorder(tree)) && UpperAt(less, Listing(p, tree), i, op.key)
    requires w == Nth(Inorder(tree), if op.Upper? then i else i - 1)
    ensures Correct(less, unique, BySlot(p, tree), op, At(w))
  {
    UpperAnswers(less, p, tree, op.key, i);
  }

  method PerformRead<K(!new), V>(c: SortedContainer<K, V>, op: Op<K, V>) returns (r: Reply)
    requires c.Valid() && !op.Put? && !op.Drop? && !op.DropAt?
    ensures Correct(c.less, c.unique, c.Elements(), op, r)
  {
    if op.Lookup? || op.Tally? || op.Size? || op.Walk? {
      r := PerformQuery(c, op);
    } else {
      r := PerformBound(c, op);
    }
  }

  method Perform<K(!new), V>(c: SortedContainer<K, V>, op: Op<K, V>) returns (r: Reply, ok: bool)
    requires c.Valid() && c.shadow.lost == {}
    modifies c
    ensures c.Valid()
    ensures ok ==> c.shadow.lost == {} && Correct(c.less, c.unique, old(c.Elements()), op, r)
    ensures c.Elements() == if ok then After(c.less, old(c.Elements()), op, r) else old(c.Elements())
    ensures !ok ==> Full(c)
  {
    if op.Put? {
      r, ok := PerformPut(c, op);
      return;
    }
    if op.Drop? {
      r, ok := PerformDrop(c, op);
      return;
    }
    if op.DropAt? {
      r, ok := PerformDropAt(c, op);
      return;
    }
    r := PerformRead(c, op);
    ok := true;
  }

  // ---- Whole runs.

  /** Every answer is correct for the map that the earlier ones led to. */
  ghost predicate AllCorrect<K, V>(less: (K, K) -> bool, unique: bool, ops: seq<Op<K, V>>, replies: seq<Reply>) {
    && |replies| <= |ops|
    && forall i :: 0 <= i < |replies| ==> Correct(less, unique, State(less, ops, replies[..i]), ops[i], replies[i])
  }

  lemma OneMore<K, V>(less: (K, K) -> bool, unique: bool, ops: seq<Op<K, V>>, replies: seq<Reply>, r: Reply)
    requires AllCorrect(less, unique, ops, replies) && |replies| < |ops|
    requires Correct(less, unique, State(less, ops, replies), ops[|replies|], r)
    ensures AllCorrect(less, unique, ops, replies + [r])
    ensures State(less, ops, replies + [r]) == After(less, State(less, ops, replies), ops[|replies|], r)
  {
    var more := replies + [r];
    assert more[..|replies|] == replies;
    forall i | 0 <= i < |more| ensures Correct(less, unique, State(less, ops, more[..i]), ops[i], more[i]) {
      if i < |replies| { assert more[..i] == replies[..i]; }
    }
  }

  /** A run from the empty container: every answer is correct for the map, and the container holds the map, until an
      insertion finds no room or there are too many elements for every path to fit on the stack. */
  method Replay<K(!new), V>(less: (K, K) -> bool, unique: bool, maxDepth: nat, maxSize: nat, ops: seq<Op<K, V>>)
    returns (c: SortedContainer<K, V>, replies: seq<Reply>)
    requires StrictWeakOrder(less) && maxSize > 0
    ensures c.Valid() && c.maxSize == maxSize && c.maxDepth == maxDepth
    ensures AllCorrect(less, unique, ops, replies)
    ensures c.Elements() == State(less, ops, replies)
    ensures |replies| < |ops| ==> Full(c)
  {
    c := new SortedContainer(less, unique, maxDepth, maxSize);
    replies := [];
    while |replies| < |ops|
      invariant fresh(c) && c.less == less && c.unique == unique && c.maxDepth == maxDepth && c.maxSize == maxSize
      invariant c.Valid() && c.shadow.lost == {} && AllCorrect(less, unique, ops, replies)
      invariant c.Elements() == State(less, ops, replies)
    {
      var r, ok := Perform(c, ops[|replies|]);
      if !ok {
        return;
      }
      OneMore(less, unique, ops, replies, r);
      replies := replies + [r];
    }
  }
}
