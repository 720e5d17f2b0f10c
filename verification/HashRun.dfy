/** Whole runs of the hash table against a finite map from handles to elements whose keys are all different. */
module HashRuns {
  import opened SortedContainers
  import opened Ordering
  import opened Heights
  import opened HashGrowth
  import opened HashTables
  import opened HashMaps

  /** A handle is the slot an iterator stands on. */
  datatype Op<K, V> =
    | Put(key: K, value: V)
    | Get(key: K)
    | Del(key: K)
    | DelAt(handle: nat)
    | Grow(count: nat)
    | SetLoad(load: real)
    | Size
    | Walk

  datatype Reply<V> =
    | Stored(slot: nat)
    | Value(slot: nat, value: V)
    | Missing
    | Number(n: nat)
    | At(slot: nat)
    | End
    | Invalid
    | Order(slots: seq<nat>)
    | Done

  // ---- What the answers mean for the map.

  ghost predicate Ascending(s: seq<nat>) {
    forall i, j :: 0 <= i < j < |s| ==> s[i] < s[j]
  }

  /** `r` names the first handle behind `h`, or the end. */
  ghost predicate Next<K, V>(e: map<nat, (K, V)>, h: nat, r: Reply<V>) {
    if r.At? then r.slot in e && h < r.slot && forall x :: h < x < r.slot ==> x !in e
    else r.End? && forall x :: x in e ==> x <= h
  }

  /** What may be answered to an operation on the map `e`. */
  ghost predicate Correct<K, V>(less: (K, K) -> bool, e: map<nat, (K, V)>, op: Op<K, V>, r: Reply<V>) {
    match op
    case Put(k, _) =>
      if Matching(less, e, k) == {} then r.Stored? && r.slot !in e
      else r.Value? && r.slot in Matching(less, e, k) && r.value == e[r.slot].1
    case Get(k) =>
      if Matching(less, e, k) == {} then r.Missing?
      else r.Value? && r.slot in Matching(less, e, k) && r.value == e[r.slot].1
    case Del(k) => r == Number(|Matching(less, e, k)|)
    case DelAt(h) => if h in e then Next(e, h, r) else r.Invalid?
    case Grow(_) => r.Done?
    case SetLoad(_) => r.Done?
    case Size => r == Number(|e|)
    case Walk => r.Order? && Ascending(r.slots) && forall x: nat :: x in e <==> x in r.slots
  }

  /** The map after an operation that was answered `r`. */
  ghost function After<K, V>(less: (K, K) -> bool, e: map<nat, (K, V)>, op: Op<K, V>, r: Reply<V>): map<nat, (K, V)> {
    match op
    case Put(k, v) => if r.Stored? then e[r.slot := (k, v)] else e
    case Del(k) => e - Matching(less, e, k)
    case DelAt(h) => e - {h}
    case _ => e
  }

  ghost function State<K, V>(less: (K, K) -> bool, ops: seq<Op<K, V>>, replies: seq<Reply<V>>): map<nat, (K, V)>
    requires |replies| <= |ops|
    decreases |replies|
  {
    if replies == [] then map[] else
      var n := |replies| - 1;
      After(less, State(less, ops, replies[..n]), ops[n], replies[n])
  }

  /** Every answer is correct for the map that the earlier ones led to. */
  ghost predicate AllCorrect<K, V>(less: (K, K) -> bool, ops: seq<Op<K, V>>, replies: seq<Reply<V>>) {
    && |replies| <= |ops|
    && forall i :: 0 <= i < |replies| ==> Correct(less, State(less, ops, replies[..i]), ops[i], replies[i])
  }

  /** No two handles hold equivalent keys. */
  ghost predicate KeysApart<K, V>(less: (K, K) -> bool, e: map<nat, (K, V)>) {
    forall i, j :: i in e && j in e && i != j ==> !Level(less, e[i].0, e[j].0)
  }

  /** Correct answers alone keep the keys apart, so that a key finds at most one element. */
  lemma {:induction false} CorrectKeepsApart<K, V>(less: (K, K) -> bool, ops: seq<Op<K, V>>, replies: seq<Reply<V>>)
    requires AllCorrect(less, ops, replies)
    ensures KeysApart(less, State(less, ops, replies))
    decreases |replies|
  {
    if replies == [] {
    } else {
      var n := |replies| - 1;
      var before := replies[..n];
      assert forall i :: 0 <= i < n ==> before[..i] == replies[..i];
      CorrectKeepsApart(less, ops, before);
      StepKeepsApart(less, State(less, ops, before), ops[n], replies[n]);
    }
  }

  lemma StepKeepsApart<K, V>(less: (K, K) -> bool, e: map<nat, (K, V)>, op: Op<K, V>, r: Reply<V>)
    requires KeysApart(less, e) && Correct(less, e, op, r)
    ensures KeysApart(less, After(less, e, op, r))
  {
    if op.Put? && r.Stored? {
      forall i | i in e ensures !Level(less, e[i].0, op.key) {
        assert i !in Matching(less, e, op.key);
      }
    }
  }

  lemma OneMore<K, V>(less: (K, K) -> bool, ops: seq<Op<K, V>>, replies: seq<Reply<V>>, r: Reply<V>)
    requires AllCorrect(less, ops, replies) && |replies| < |ops|
    requires Correct(less, State(less, ops, replies), ops[|replies|], r)
    ensures AllCorrect(less, ops, replies + [r])
    ensures State(less, ops, replies + [r]) == After(less, State(less, ops, replies), ops[|replies|], r)
  {
    var more := replies + [r];
    assert more[..|replies|] == replies;
    forall i | 0 <= i < |more| ensures Correct(less, State(less, ops, more[..i]), ops[i], more[i]) {
      if i < |replies| { assert more[..i] == replies[..i]; }
    }
  }

  // ---- Single operations.

  lemma TableApart<K(!new), V>(less: (K, K) -> bool, hash: K -> nat, p: Table<K, V>, g: Trees)
    requires TableOk(less, hash, p, g)
    ensures KeysApart(less, Entries(p, g))
  {
    EntriesBelow(less, hash, p, g);
  }

  /** With the keys apart a match is the only one. */
  lemma OnlyMatch<K(!new), V>(less: (K, K) -> bool, e: map<nat, (K, V)>, slot: nat, key: K)
    requires StrictWeakOrder(less) && KeysApart(less, e) && slot in e && Level(less, e[slot].0, key)
    ensures Matching(less, e, key) == {slot}
  {
    forall i | i in e && i != slot ensures !Level(less, e[i].0, key) {
      assert !Level(less, e[i].0, e[slot].0);
      assert OrderedAt(less, e[i].0, key, e[slot].0) && OrderedAt(less, e[slot].0, key, e[i].0);
      assert OrderedAt(less, key, e[slot].0, e[i].0) && OrderedAt(less, e[i].0, e[slot].0, key);
      assert OrderedAt(less, key, e[i].0, e[slot].0) && OrderedAt(less, e[slot].0, e[i].0, key);
    }
  }

  method PerformPut<K(!new), V>(h: HashTable<K, V>, op: Op<K, V>) returns (r: Reply<V>, ok: bool)
    requires h.Valid() && op.Put?
    modifies h
    ensures h.Valid() && h.load == old(h.load)
    ensures ok ==> Correct(h.less, old(h.Contents()), op, r)
    ensures h.Contents() == if ok then After(h.less, old(h.Contents()), op, r) else old(h.Contents())
    ensures ok <==> old(!TooMany(h.lim, h.load, h.table) && Steady(h.lim, h.load, h.table))
  {
    ghost var e := h.Contents();
    var reply := h.Insert(op.key, op.value);
    ok := reply.Stored? || reply.Held?;
    r := Missing;
    if reply.Stored? {
      r := Reply.Stored(reply.slot);
    } else if reply.Held? {
      EntriesBelow(h.less, h.hash, h.table, h.trees);
      assert reply.slot in Matching(h.less, e, op.key);
      r := Value(reply.slot, h.table.elems[reply.slot].1);
    }
  }

  method PerformGet<K(!new), V>(h: HashTable<K, V>, op: Op<K, V>) returns (r: Reply<V>)
    requires h.Valid() && op.Get?
    ensures Correct(h.less, h.Contents(), op, r)
  {
    var slot := h.Find(op.key);
    EntriesBelow(h.less, h.hash, h.table, h.trees);
    if slot == |h.table.elems| {
      r := Missing;
    } else {
      assert slot in Matching(h.less, h.Contents(), op.key);
      r := Value(slot, h.table.elems[slot].1);
    }
  }

  method PerformDel<K(!new), V>(h: HashTable<K, V>, op: Op<K, V>) returns (r: Reply<V>)
    requires h.Valid() && op.Del?
    modifies h
    ensures h.Valid() && h.load == old(h.load)
    ensures Correct(h.less, old(h.Contents()), op, r) && h.Contents() == After(h.less, old(h.Contents()), op, r)
  {
    ghost var e := h.Contents();
    TableApart(h.less, h.hash, h.table, h.trees);
    var n; ghost var slot;
    n, slot := h.Erase(op.key);
    r := Number(n);
    if n == 1 {
      OnlyMatch(h.less, e, slot, op.key);
    } else {
      assert Matching(h.less, e, op.key) == {};
    }
  }

  method PerformDelAt<K(!new), V>(h: HashTable<K, V>, op: Op<K, V>) returns (r: Reply<V>)
    requires h.Valid() && op.DelAt?
    modifies h
    ensures h.Valid() && h.load == old(h.load)
    ensures Correct(h.less, old(h.Contents()), op, r) && h.Contents() == After(h.less, old(h.Contents()), op, r)
  {
    ghost var e := h.Contents();
    EntriesBelow(h.less, h.hash, h.table, h.trees);
    AllBelow(h.less, h.hash, h.table, h.trees);
    if op.handle >= |h.table.elems| || h.table.nodes[op.handle].empty {
      assert e - {op.handle} == e;
      r := Invalid;
      return;
    }
    var next := h.EraseAt(op.handle);
    r := if next < |h.table.elems| then At(next) else End;
    NextAnswers(e, op.handle, next, |h.table.elems|);
  }

  lemma NextAnswers<K, V>(e: map<nat, (K, V)>, h: nat, next: nat, end: nat)
    requires (forall x :: x in e ==> x < end) && h < next <= end && (next < end ==> next in e - {h})
    requires forall x :: h < x < next ==> x !in e - {h}
    ensures Next(e, h, if next < end then At(next) else End)
  {
    forall x | h < x < next ensures x !in e {
      assert x !in e - {h};
    }
  }

  method PerformRead<K(!new), V>(h: HashTable<K, V>, op: Op<K, V>) returns (r: Reply<V>)
    requires h.Valid() && (op.Get? || op.Size? || op.Walk?)
    ensures Correct(h.less, h.Contents(), op, r)
  {
    if op.Get? {
      r := PerformGet(h, op);
    } else if op.Size? {
      var n := h.Size();
      r := Number(n);
    } else {
      var slots := h.Walk();
      r := Order(slots);
    }
  }

  method PerformChange<K(!new), V>(h: HashTable<K, V>, op: Op<K, V>) returns (r: Reply<V>)
    requires h.Valid() && !op.Put?
    modifies h
    ensures h.Valid()
    ensures Correct(h.less, old(h.Contents()), op, r) && h.Contents() == After(h.less, old(h.Contents()), op, r)
  {
    match op {
      case Del(_) => r := PerformDel(h, op);
      case DelAt(_) => r := PerformDelAt(h, op);
      case Grow(count) =>
        h.Resize(count);
        r := Done;
      case SetLoad(load) =>
        h.SetMaxLoad(load);
        r := Done;
      case _ => r := PerformRead(h, op);
    }
  }

  // ---- Whole runs.

  /** A run from the empty table: every answer is correct for the map, and the table holds the map, until an
      insertion finds the table at one of its maxima or a request that is rounded to too few slots. */
  method Replay<K(!new), V>(less: (K, K) -> bool, hash: K -> nat, lim: Limits, ops: seq<Op<K, V>>)
    returns (h: HashTable<K, V>, replies: seq<Reply<V>>)
    requires StrictWeakOrder(less) && Compatible(less, hash) && LimitsOk(lim) && Fits(lim.maxSize, lim.depth)
    ensures h.Valid() && h.lim == lim
    ensures AllCorrect(less, ops, replies)
    ensures h.Contents() == State(less, ops, replies) && KeysApart(less, h.Contents())
    ensures |replies| < |ops| ==> ops[|replies|].Put?
    ensures |replies| < |ops| ==> AtLimit(lim, h.table) || !Steady(lim, h.load, h.table)
  {
    h := new HashTable(less, hash, lim);
    replies := [];
    while |replies| < |ops|
      invariant fresh(h) && h.Valid() && h.less == less && h.hash == hash && h.lim == lim
      invariant AllCorrect(less, ops, replies) && h.Contents() == State(less, ops, replies)
    {
      var op := ops[|replies|];
      var r;
      if op.Put? {
        if TooMany(lim, h.load, h.table) || !Steady(lim, h.load, h.table) {
          break;
        }
        var ok;
        r, ok := PerformPut(h, op);
      } else {
        r := PerformChange(h, op);
      }
      OneMore(less, ops, replies, r);
      replies := replies + [r];
    }
    CorrectKeepsApart(less, ops, replies);
  }
}
