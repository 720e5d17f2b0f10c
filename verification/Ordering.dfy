/** Key order and slot order.  Elements are pairs of a key and a mapped value; a slot is sorted by
    its element's key, and among equivalent keys by its own number. */
module Ordering {
  import opened Shape
  import opened Threads
  import opened Search

  /** Irreflexive, transitive, and with transitive incomparability, at three keys. */
  predicate OrderedAt<K>(less: (K, K) -> bool, a: K, b: K, c: K) {
    && !less(a, a)
    && (less(a, b) && less(b, c) ==> less(a, c))
    && (!less(a, b) && !less(b, c) ==> !less(a, c))
  }

  /** What a container asks of its key comparison. */
  ghost predicate StrictWeakOrder<K(!new)>(less: (K, K) -> bool) {
    forall a, b, c :: OrderedAt(less, a, b, c)
  }

  ghost predicate InRange<E>(elems: seq<E>, s: seq<nat>) {
    forall i :: 0 <= i < |s| ==> s[i] < |elems|
  }

  /** The comparison of slots by key and then by number. */
  predicate SlotLess<K, V>(less: (K, K) -> bool, elems: seq<(K, V)>, a: nat, b: nat) {
    && a < |elems| && b < |elems|
    && (less(elems[a].0, elems[b].0) || (!less(elems[b].0, elems[a].0) && a < b))
  }

  ghost predicate Sorted<K, V>(less: (K, K) -> bool, elems: seq<(K, V)>, s: seq<nat>) {
    InRange(elems, s) && forall i, j :: 0 <= i < j < |s| ==> SlotLess(less, elems, s[i], s[j])
  }

  /** No two slots hold equivalent keys. */
  ghost predicate KeysDiffer<K, V>(less: (K, K) -> bool, elems: seq<(K, V)>, s: seq<nat>)
    requires InRange(elems, s)
  {
    forall i, j :: 0 <= i < j < |s| ==> less(elems[s[i]].0, elems[s[j]].0)
  }

  // ---- The predicates a search is steered by.

  function BelowKey<K, V>(less: (K, K) -> bool, elems: seq<(K, V)>, key: K): nat -> bool {
    (p: nat) => p < |elems| && less(elems[p].0, key)
  }

  function AboveKey<K, V>(less: (K, K) -> bool, elems: seq<(K, V)>, key: K): nat -> bool {
    (p: nat) => p < |elems| && less(key, elems[p].0)
  }

  function BelowSlot<K, V>(less: (K, K) -> bool, elems: seq<(K, V)>, slot: nat): nat -> bool {
    (p: nat) => SlotLess(less, elems, p, slot)
  }

  function AboveSlot<K, V>(less: (K, K) -> bool, elems: seq<(K, V)>, slot: nat): nat -> bool {
    (p: nat) => SlotLess(less, elems, slot, p)
  }

  /** The slots that a new slot `at` with `key` would come before. */
  function AboveNew<K, V>(less: (K, K) -> bool, elems: seq<(K, V)>, key: K, at: int): nat -> bool {
    (p: nat) => p < |elems| && (less(key, elems[p].0) || (!less(elems[p].0, key) && at < p))
  }

  lemma KeyCut<K(!new), V>(less: (K, K) -> bool, elems: seq<(K, V)>, s: seq<nat>, key: K)
    requires StrictWeakOrder(less) && Sorted(less, elems, s)
    ensures Cut(s, BelowKey(less, elems, key), AboveKey(less, elems, key))
  {
    var below, above := BelowKey(less, elems, key), AboveKey(less, elems, key);
    forall i, j | 0 <= i < j < |s| ensures (below(s[j]) ==> below(s[i])) && (!above(s[j]) ==> !above(s[i])) {
      assert SlotLess(less, elems, s[i], s[j]);
      var a, b := elems[s[i]].0, elems[s[j]].0;
      assert OrderedAt(less, a, b, key) && OrderedAt(less, b, a, key) && OrderedAt(less, key, a, b) &&
          OrderedAt(less, key, b, a);
      assert OrderedAt(less, a, key, b);
    }
    forall i | 0 <= i < |s| ensures !(below(s[i]) && above(s[i])) {
      assert OrderedAt(less, elems[s[i]].0, key, elems[s[i]].0);
    }
  }

  lemma SlotLessTotal<K(!new), V>(less: (K, K) -> bool, elems: seq<(K, V)>, a: nat, b: nat)
    requires StrictWeakOrder(less) && a < |elems| && b < |elems|
    ensures a != b ==> SlotLess(less, elems, a, b) || SlotLess(less, elems, b, a)
    ensures !(SlotLess(less, elems, a, b) && SlotLess(less, elems, b, a))
    ensures a == b ==> !SlotLess(less, elems, a, b)
  {
    assert OrderedAt(less, elems[a].0, elems[b].0, elems[a].0);
  }

  lemma SlotLessTransitive<K(!new), V>(less: (K, K) -> bool, elems: seq<(K, V)>, a: nat, b: nat, c: nat)
    requires StrictWeakOrder(less) && SlotLess(less, elems, a, b) && SlotLess(less, elems, b, c)
    ensures SlotLess(less, elems, a, c)
  {
    var x, y, z := elems[a].0, elems[b].0, elems[c].0;
    assert OrderedAt(less, x, y, z) && OrderedAt(less, z, y, x) && OrderedAt(less, z, x, y) && OrderedAt(less, y, z, x);
    assert OrderedAt(less, x, z, y) && OrderedAt(less, y, x, z);
  }

  lemma SlotCut<K(!new), V>(less: (K, K) -> bool, elems: seq<(K, V)>, s: seq<nat>, slot: nat)
    requires StrictWeakOrder(less) && Sorted(less, elems, s) && slot < |elems|
    ensures Cut(s, BelowSlot(less, elems, slot), AboveSlot(less, elems, slot))
    ensures forall i :: 0 <= i < |s| ==>
      (!BelowSlot(less, elems, slot)(s[i]) && !AboveSlot(less, elems, slot)(s[i]) <==> s[i] == slot)
  {
    var below, above := BelowSlot(less, elems, slot), AboveSlot(less, elems, slot);
    forall i, j | 0 <= i < j < |s| ensures (below(s[j]) ==> below(s[i])) && (!above(s[j]) ==> !above(s[i])) {
      if below(s[j]) { SlotLessTransitive(less, elems, s[i], s[j], slot); }
      if above(s[i]) { SlotLessTransitive(less, elems, slot, s[i], s[j]); }
    }
    forall i | 0 <= i < |s| ensures !(below(s[i]) && above(s[i])) && (!below(s[i]) && !above(s[i]) <==> s[i] == slot) {
      SlotLessTotal(less, elems, s[i], slot);
    }
  }

  /** A slot put between those before it and those after it. */
  lemma InsertSorted<K, V>(less: (K, K) -> bool, elems: seq<(K, V)>, a: seq<nat>, x: nat, b: seq<nat>)
    requires Sorted(less, elems, a + b) && x < |elems|
    requires forall y :: y in a ==> SlotLess(less, elems, y, x)
    requires forall y :: y in b ==> SlotLess(less, elems, x, y)
    ensures Sorted(less, elems, a + [x] + b)
  {
    var s, u := a + b, a + [x] + b;
    forall i | 0 <= i < |u| ensures u[i] < |elems| {
      assert i < |a| ==> u[i] == s[i];
      assert i > |a| ==> u[i] == s[i - 1];
    }
    forall i, j | 0 <= i < j < |u| ensures SlotLess(less, elems, u[i], u[j]) {
      assert i < |a| ==> u[i] == s[i] && u[i] in a;
      assert j < |a| ==> u[j] == s[j];
      assert i > |a| ==> u[i] == s[i - 1];
      assert j > |a| ==> u[j] == s[j - 1] && u[j] == b[j - |a| - 1];
    }
  }

  lemma RemoveSorted<K, V>(less: (K, K) -> bool, elems: seq<(K, V)>, a: seq<nat>, x: nat, b: seq<nat>)
    requires Sorted(less, elems, a + [x] + b)
    ensures Sorted(less, elems, a + b)
    ensures KeysDiffer(less, elems, a + [x] + b) ==> KeysDiffer(less, elems, a + b)
  {
    var s, u := a + b, a + [x] + b;
    assert forall i :: 0 <= i < |s| ==> s[i] == u[if i < |a| then i else i + 1];
  }

  lemma InsertDiffer<K, V>(less: (K, K) -> bool, elems: seq<(K, V)>, a: seq<nat>, x: nat, b: seq<nat>)
    requires x < |elems| && InRange(elems, a + b) && InRange(elems, a + [x] + b) && KeysDiffer(less, elems, a + b)
    requires forall y :: y in a && y < |elems| ==> less(elems[y].0, elems[x].0)
    requires forall y :: y in b && y < |elems| ==> less(elems[x].0, elems[y].0)
    ensures KeysDiffer(less, elems, a + [x] + b)
  {
    var s, u := a + b, a + [x] + b;
    forall i, j | 0 <= i < j < |u| ensures less(elems[u[i]].0, elems[u[j]].0) {
      assert i < |a| ==> u[i] == s[i] && u[i] in a;
      assert j < |a| ==> u[j] == s[j];
      assert i > |a| ==> u[i] == s[i - 1];
      assert j > |a| ==> u[j] == s[j - 1] && u[j] == b[j - |a| - 1];
    }
  }

  // ---- The elements by slot.

  ghost function Held<E>(elems: seq<E>, live: set<nat>): map<nat, E> {
    map x | x in live && x < |elems| :: elems[x]
  }

  lemma HeldAdd<E>(elems: seq<E>, elems': seq<E>, live: set<nat>, x: nat)
    requires |elems| <= |elems'| && x < |elems'|
    requires forall i :: i in live ==> i < |elems| && elems'[i] == elems[i]
    ensures Held(elems', live + {x}) == Held(elems, live)[x := elems'[x]] && Held(elems', live) == Held(elems, live)
  {
  }

  lemma HeldDrop<E>(elems: seq<E>, live: set<nat>, x: nat)
    ensures Held(elems, live - {x}) == Held(elems, live) - {x}
  {
  }

  // ---- The elements in order.

  function View<E>(elems: seq<E>, s: seq<nat>): seq<E>
    requires InRange(elems, s)
  {
    seq(|s|, i requires 0 <= i < |s| => elems[s[i]])
  }

  lemma ViewFrame<E>(elems: seq<E>, elems': seq<E>, s: seq<nat>)
    requires InRange(elems, s) && |elems| <= |elems'|
    requires forall i :: 0 <= i < |s| ==> elems'[s[i]] == elems[s[i]]
    ensures InRange(elems', s) && View(elems', s) == View(elems, s)
  {
  }
}
