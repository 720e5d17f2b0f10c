/** The public face of the hash table. */
module HashMaps {
  import opened Shape
  import opened Heights
  import opened Threads
  import opened Ordering
  import opened SlotPool
  import opened SortedContainers
  import opened HashGrowth
  import opened HashTables

  /** `Full` is the length error; after `NoSlot` there is no slot to put the element in. */
  datatype InsertReply = Stored(slot: nat) | Held(slot: nat) | Full | NoSlot

  // ---- Steps on the parts of a table.

  lemma NoTableOk<K(!new), V>(less: (K, K) -> bool, hash: K -> nat)
    requires StrictWeakOrder(less) && Compatible(less, hash)
    ensures TableOk(less, hash, NoTable<K, V>(), Trees([], []))
  {
    UptoMembers(0);
  }

  lemma EntriesBelow<K(!new), V>(less: (K, K) -> bool, hash: K -> nat, p: Table<K, V>, g: Trees)
    requires TableOk(less, hash, p, g)
    ensures forall x :: x in Entries(p, g) <==> x in Live(g.trees)
    ensures forall x :: x in Entries(p, g) ==> x < |p.elems| && Entries(p, g)[x] == p.elems[x]
  {
    UptoMembers(|p.elems|);
  }

  lemma EntriesCount<K(!new), V>(less: (K, K) -> bool, hash: K -> nat, p: Table<K, V>, g: Trees)
    requires TableOk(less, hash, p, g)
    ensures |Entries(p, g)| == |p.elems| - p.freeCount
  {
    EntriesBelow(less, hash, p, g);
    PoolCount(p.nodes, |p.elems|, p.freeList, g.chain, Live(g.trees), {});
    assert Entries(p, g).Keys == Live(g.trees);
  }

  method InsertValue<K(!new), V>(less: (K, K) -> bool, hash: K -> nat, lim: Limits, load: real, p: Table<K, V>,
      x: (K, V), ghost g: Trees)
    returns (p': Table<K, V>, ghost g': Trees, r: InsertReply)
    requires TableOk(less, hash, p, g) && Limited(lim, p) && load > 0.0
    ensures TableOk(less, hash, p', g') && Limited(lim, p')
    ensures r.Stored? ==> r.slot !in Entries(p, g) && Entries(p', g') == Entries(p, g)[r.slot := x]
    ensures r.Stored? ==> forall i :: i in Entries(p, g) ==> !Level(less, Entries(p, g)[i].0, x.0)
    ensures r.Held? ==>
      Entries(p', g') == Entries(p, g) && r.slot in Entries(p, g) && Level(less, Entries(p, g)[r.slot].0, x.0)
    ensures r.Full? || r.NoSlot? ==> Entries(p', g') == Entries(p, g)
    ensures r.Full? <==> TooMany(lim, load, p)
    ensures r.NoSlot? <==> !TooMany(lim, load, p) && !Steady(lim, load, p)
    ensures r.Stored? || r.Held? ==> |p'.buckets| == GrownBuckets(lim, load, p)
  {
    var out;
    p', out, g' := CheckGrow(less, hash, lim, load, p, g);
    if !out.Enough? {
      r := if out.Short? then NoSlot else Full;
      return;
    }
    FitsLess(|p'.elems|, lim.maxSize, lim.depth);
    var offset, inserted;
    p', offset, inserted, g' := InsertUncheck(less, hash, lim.depth, p', x, g');
    r := if inserted then Stored(offset) else Held(offset);
  }

  lemma FitsLess(a: nat, b: nat, depth: nat)
    requires Fits(b, depth) && a <= b
    ensures Fits(a, depth)
  {
  }

  /** With 64-bit links the path stack is long enough for every permitted size. */
  lemma Fits126(n: nat)
    requires n <= 0x3FFF_FFFF_FFFF_FFFE
    ensures Fits(n, 126)
  {
    assert Pow2(5) == 0x20;
    assert Pow2(10) == 0x400;
    assert Pow2(15) == 0x8000;
    assert Pow2(20) == 0x100000;
    assert Pow2(25) == 0x2000000;
    assert Pow2(30) == 0x40000000;
    assert Pow2(35) == 0x800000000;
    assert Pow2(40) == 0x10000000000;
    assert Pow2(45) == 0x200000000000;
    assert Pow2(50) == 0x4000000000000;
    assert Pow2(55) == 0x80000000000000;
    assert Pow2(60) == 0x1000000000000000;
    assert Pow2(63) == 0x8000000000000000;
  }

  /** The first used cell from `i` on. */
  method NextUsed<K(!new), V>(less: (K, K) -> bool, hash: K -> nat, p: Table<K, V>, i: nat, ghost g: Trees)
      returns (j: nat)
    requires TableOk(less, hash, p, g) && i <= |p.elems|
    ensures i <= j <= |p.elems| && (j < |p.elems| ==> j in Entries(p, g))
    ensures forall x :: i <= x < j ==> x !in Entries(p, g)
  {
    AllBelow(less, hash, p, g);
    EntriesBelow(less, hash, p, g);
    j := i;
    while j < |p.elems| && p.nodes[j].empty
      invariant i <= j <= |p.elems|
      invariant forall x :: i <= x < j ==> x !in Entries(p, g)
    {
      j := j + 1;
    }
  }

  /** Chooses at least `count` buckets, and so many that the load factor is not exceeded. */
  method RehashLoaded<K(!new), V>(less: (K, K) -> bool, hash: K -> nat, lim: Limits, load: real, p: Table<K, V>,
      count: nat, ghost g: Trees)
    returns (p': Table<K, V>, ghost g': Trees)
    requires TableOk(less, hash, p, g) && Limited(lim, p) && load > 0.0
    ensures TableOk(less, hash, p', g') && Limited(lim, p') && Entries(p', g') == Entries(p, g)
    ensures |p'.buckets| >= count || Capped(lim, |p'.buckets|)
    ensures |Entries(p', g')| as real <= Room(|p'.buckets|, load) || Capped(lim, |p'.buckets|)
  {
    EntriesCount(less, hash, p, g);
    var needed := Ceil((|p.elems| - p.freeCount) as real / load);
    var n := if needed > count then needed else count;
    p', g' := RehashFor(less, hash, lim, p, n, g);
    BucketsServe(lim, |Entries(p', g')|, load, n, |p'.buckets|);
  }

  class HashTable<K(!new), V> {
    const less: (K, K) -> bool
    const hash: K -> nat
    const lim: Limits
    var load: real
    var table: Table<K, V>
    ghost var trees: Trees

    ghost predicate Valid()
      reads this
    {
      TableOk(less, hash, table, trees) && Limited(lim, table) && load > 0.0
    }

    /** The element in every occupied slot. */
    ghost function Contents(): map<nat, (K, V)>
      reads this
    {
      Entries(table, trees)
    }

    constructor (less: (K, K) -> bool, hash: K -> nat, lim: Limits)
      requires StrictWeakOrder(less) && Compatible(less, hash) && LimitsOk(lim) && Fits(lim.maxSize, lim.depth)
      ensures Valid() && Contents() == map[] && this.less == less && this.hash == hash && this.lim == lim
      ensures load == 1.0 && table == NoTable()
    {
      this.less, this.hash, this.lim, load := less, hash, lim, 1.0;
      table, trees := NoTable(), Trees([], []);
      NoTableOk<K, V>(less, hash);
    }

    method Size() returns (n: nat)
      requires Valid()
      ensures n == |Contents()|
    {
      EntriesCount(less, hash, table, trees);
      n := |table.elems| - table.freeCount;
    }

    method Insert(key: K, value: V) returns (r: InsertReply)
      requires Valid()
      modifies this`table, this`trees
      ensures Valid()
      ensures r.Stored? ==> r.slot !in old(Contents()) && Contents() == old(Contents())[r.slot := (key, value)]
      ensures r.Stored? ==> forall i :: i in old(Contents()) ==> !Level(less, old(Contents())[i].0, key)
      ensures r.Held? ==>
        Contents() == old(Contents()) && r.slot in Contents() && Level(less, Contents()[r.slot].0, key)
      ensures r.Full? || r.NoSlot? ==> Contents() == old(Contents())
      ensures r.Full? <==> old(TooMany(lim, load, table))
      ensures r.NoSlot? <==> old(!TooMany(lim, load, table) && !Steady(lim, load, table))
      ensures r.Stored? || r.Held? ==> |table.buckets| == old(GrownBuckets(lim, load, table))
    {
      table, trees, r := InsertValue(less, hash, lim, load, table, (key, value), trees);
    }

    method Find(key: K) returns (slot: nat)
      requires Valid()
      ensures slot != |table.elems| ==> slot in Contents() && Level(less, Contents()[slot].0, key)
      ensures slot == |table.elems| ==> forall i :: i in Contents() ==> !Level(less, Contents()[i].0, key)
    {
      if table.elems == [] {
        slot := 0;
      } else {
        slot := FindValue(less, hash, table, key, trees);
      }
    }

    method Erase(key: K) returns (n: nat, ghost slot: nat)
      requires Valid()
      modifies this`table, this`trees
      ensures Valid()
      ensures n == 1 ==> slot in old(Contents()) && Level(less, old(Contents())[slot].0, key)
      ensures n == 1 ==> Contents() == old(Contents()) - {slot}
      ensures n != 1 ==> n == 0 && Contents() == old(Contents())
      ensures n != 1 ==> forall i :: i in Contents() ==> !Level(less, Contents()[i].0, key)
    {
      n, slot := 0, 0;
      if table.elems != [] {
        table, n, trees, slot := RemoveValue(less, hash, lim.depth, table, key, trees);
      }
    }

    /** Removal by iterator; returns the following one. */
    method EraseAt(slot: nat) returns (next: nat)
      requires Valid() && slot in Contents()
      modifies this`table, this`trees
      ensures Valid() && Contents() == old(Contents()) - {slot} && |table.elems| == old(|table.elems|)
      ensures slot < next <= |table.elems| && (next < |table.elems| ==> next in Contents())
      ensures forall x :: slot < x < next ==> x !in Contents()
    {
      EntriesBelow(less, hash, table, trees);
      table, trees := RemoveOffset(less, hash, lim.depth, table, slot, trees);
      next := Advance(slot + 1);
    }

    method Resize(count: nat)
      requires Valid()
      modifies this`table, this`trees
      ensures Valid() && Contents() == old(Contents())
      ensures (|table.buckets| >= count && |table.buckets| >= 8) || Capped(lim, |table.buckets|)
      ensures |Contents()| as real <= Room(|table.buckets|, load) || Capped(lim, |table.buckets|)
    {
      table, trees := RehashLoaded(less, hash, lim, load, table, if count < 8 then 8 else count, trees);
    }

    method SetMaxLoad(load': real)
      requires Valid()
      modifies this
      ensures Valid() && Contents() == old(Contents()) && load == if load' <= 0.0 then old(load) else load'
      ensures old(table) == NoTable() ==> table == old(table)
      ensures load' > 0.0 && old(table.elems) != [] ==>
        |Contents()| as real <= Room(|table.buckets|, load') || Capped(lim, |table.buckets|)
    {
      if load' <= 0.0 {
        return;
      }
      load := load';
      if table.elems != [] {
        table, trees := RehashLoaded(less, hash, lim, load, table, 0, trees);
      }
    }

    /** The first occupied slot from `i` on. */
    method Advance(i: nat) returns (j: nat)
      requires Valid() && i <= |table.elems|
      ensures i <= j <= |table.elems| && (j < |table.elems| ==> j in Contents())
      ensures forall x :: i <= x < j ==> x !in Contents()
    {
      j := NextUsed(less, hash, table, i, trees);
    }

    /** A walk from the begin to the end iterator: every occupied slot, once, in ascending order. */
    method Walk() returns (slots: seq<nat>)
      requires Valid()
      ensures forall i :: 0 <= i < |slots| ==> slots[i] in Contents()
      ensures forall x :: x in Contents() ==> x in slots
      ensures forall i, j :: 0 <= i < j < |slots| ==> slots[i] < slots[j]
    {
      slots := [];
      var at := Advance(0);
      while at < |table.elems|
        invariant at <= |table.elems| && (at < |table.elems| ==> at in Contents())
        invariant forall i :: 0 <= i < |slots| ==> slots[i] in Contents() && slots[i] < at
        invariant forall x :: x in Contents() && x < at ==> x in slots
        invariant forall i, j :: 0 <= i < j < |slots| ==> slots[i] < slots[j]
        decreases |table.elems| - at
      {
        slots := slots + [at];
        at := Advance(at + 1);
      }
      EntriesBelow(less, hash, table, trees);
    }
  }

  /** A load factor of 2^61 / 5 on an empty table: the first insertion finds no slot. */
  method LoadTooHigh<K(!new), V>(less: (K, K) -> bool, hash: K -> nat, lim: Limits, key: K, value: V)
      returns (r: InsertReply)
    requires StrictWeakOrder(less) && Compatible(less, hash) && LimitsOk(lim) && Fits(lim.maxSize, lim.depth)
    requires lim.primes[0] == 5 && lim.maxSize >= 5
    ensures r.NoSlot?
  {
    var h := new HashTable<K, V>(less, hash, lim);
    h.SetMaxLoad(0x2000_0000_0000_0000 as real / 5.0);
    SteadyFails<K, V>(lim);
    r := h.Insert(key, value);
  }
}
