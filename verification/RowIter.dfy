/** Iterators of a recovery unit over the rows of a table. */
module RowIters {
  import opened Visibility
  import opened RowTables

  /** The rows below `n` that unit `r` sees, in ascending order. */
  function VisibleBelow(a: Spec, r: nat, n: nat): seq<nat> {
    if n == 0 then [] else VisibleBelow(a, r, n - 1) + (if Sees(a, r, n - 1) then [n - 1] else [])
  }

  lemma {:induction false} VisibleMembers(a: Spec, r: nat, n: nat)
    ensures forall id :: id in VisibleBelow(a, r, n) <==> 0 <= id < n && Sees(a, r, id)
    ensures forall i, j :: 0 <= i < j < |VisibleBelow(a, r, n)| ==> VisibleBelow(a, r, n)[i] < VisibleBelow(a, r, n)[j]
  {
    if n == 0 {
    } else {
      VisibleMembers(a, r, n - 1);
      var s := VisibleBelow(a, r, n - 1);
      assert forall i :: 0 <= i < |s| ==> s[i] in s;
    }
  }

  function Reversed<T>(s: seq<T>): seq<T> {
    if s == [] then [] else [s[|s| - 1]] + Reversed(s[..|s| - 1])
  }

  lemma LastReversed(s: seq<nat>, x: nat)
    ensures Reversed(s + [x]) == [x] + Reversed(s)
  {
    assert (s + [x])[..|s|] == s;
  }

  lemma {:induction false} NoneBetween(a: Spec, r: nat, lo: nat, hi: nat)
    requires lo <= hi && forall x :: lo <= x < hi ==> !Sees(a, r, x)
    ensures VisibleBelow(a, r, hi) == VisibleBelow(a, r, lo)
    decreases hi
  {
    if lo == hi {
    } else {
      NoneBetween(a, r, lo, hi - 1);
    }
  }

  /** A backward scan that has listed `ids` and stands at the visible row `id` goes on at row `next - 1`. */
  lemma BackwardStep(a: Spec, r: nat, whole: seq<nat>, ids: seq<nat>, id: nat, next: nat)
    requires whole == ids + Reversed(VisibleBelow(a, r, id + 1)) && Sees(a, r, id)
    requires next <= id && forall x :: next <= x < id ==> !Sees(a, r, x)
    ensures whole == (ids + [id]) + Reversed(VisibleBelow(a, r, next))
  {
    LastReversed(VisibleBelow(a, r, id), id);
    NoneBetween(a, r, next, id);
  }

  class StoreIter {
    const table: ThreadSafeTable
    const unit: nat
    const forward: bool
    /** The next row of a forward iterator; one above the next row of a backward one. */
    var at: nat

    ghost predicate Valid()
      reads this, table
    {
      table.Valid() && WorkOf(table.spec, unit).iters > 0
    }

    constructor (table: ThreadSafeTable, unit: nat, forward: bool)
      requires table.Valid()
      modifies table
      ensures Valid() && table.spec == Next(old(table.spec), OpenIter(unit))
      ensures this.table == table && this.unit == unit && this.forward == forward
      ensures at == if forward then 0 else table.rowNum
    {
      this.table, this.unit, this.forward := table, unit, forward;
      at := if forward then 0 else table.rowNum;
      new;
      table.OpenIterator(unit);
    }

    /** The next visible row, if there is one. */
    method Increment() returns (found: bool, id: nat)
      requires Valid()
      modifies this`at
      ensures found ==> Sees(table.spec, unit, id)
      ensures found && forward ==> old(at) <= id < table.rowNum && at == id + 1
      ensures forward ==> forall x :: old(at) <= x < (if found then id else table.rowNum) ==> !Sees(table.spec, unit, x)
      ensures found && !forward ==> id < old(at) && at == id
      ensures !found ==> at == if !forward then 0 else if old(at) > table.rowNum then old(at) else table.rowNum
      ensures !forward ==> forall x: nat :: (if found then id + 1 else 0) <= x < old(at) ==> !Sees(table.spec, unit, x)
    {
      found, id := false, 0;
      if forward {
        while at < table.rowNum
          invariant forall x :: old(at) <= x < at ==> !Sees(table.spec, unit, x)
          invariant at >= old(at) && (at > table.rowNum ==> at == old(at))
          decreases table.rowNum - at
        {
          id, at := at, at + 1;
          found := table.GetVal(unit, id);
          if found { return; }
        }
      } else {
        while at > 0
          invariant at <= old(at)
          invariant forall x :: at <= x < old(at) ==> !Sees(table.spec, unit, x)
        {
          id, at := at - 1, at - 1;
          found := table.GetVal(unit, id);
          if found { return; }
        }
      }
      found := false;
    }

    /** Places the iterator at a row and tells whether it is visible; a row that was never written moves nothing. */
    method SeekExact(id: nat) returns (found: bool)
      requires Valid()
      modifies this`at
      ensures found <==> id < table.rowNum && Sees(table.spec, unit, id)
      ensures at == if id >= table.rowNum then old(at) else if forward then id + 1 else id
    {
      if id >= table.rowNum {
        return false;
      }
      at := if forward then id + 1 else id;
      found := table.GetVal(unit, id);
    }

    method Reset()
      requires Valid()
      modifies this`at
      ensures at == if forward then 0 else table.rowNum
    {
      at := if forward then 0 else table.rowNum;
    }

    method ScanForward() returns (ids: seq<nat>)
      requires Valid() && forward && at == 0
      modifies this`at
      ensures ids == VisibleBelow(table.spec, unit, table.rowNum)
    {
      ids := [];
      var found, id := Increment();
      NoneBetween(table.spec, unit, 0, if found then id else table.rowNum);
      while found
        invariant found ==> id < table.rowNum && at == id + 1 && Sees(table.spec, unit, id)
        invariant ids == VisibleBelow(table.spec, unit, if found then id else table.rowNum)
        decreases found, table.rowNum - at
      {
        ids := ids + [id];
        ghost var from := at;
        found, id := Increment();
        NoneBetween(table.spec, unit, from, if found then id else table.rowNum);
      }
    }

    method ScanBackward() returns (ids: seq<nat>)
      requires Valid() && !forward && at == table.rowNum
      modifies this`at
      ensures ids == Reversed(VisibleBelow(table.spec, unit, table.rowNum))
    {
      ids := [];
      ghost var whole := Reversed(VisibleBelow(table.spec, unit, table.rowNum));
      var found, id := Increment();
      NoneBetween(table.spec, unit, if found then id + 1 else 0, table.rowNum);
      while found
        invariant found ==> at == id && Sees(table.spec, unit, id)
        invariant whole == ids + Reversed(VisibleBelow(table.spec, unit, if found then id + 1 else 0))
        decreases found, at
      {
        ghost var before, last := ids, id;
        ids := ids + [id];
        found, id := Increment();
        BackwardStep(table.spec, unit, whole, before, last, if found then id + 1 else 0);
      }
    }
  }
}
