/** Two legal runs that come to the limit of the 32-bit clock: a deleted row that stays visible, and a rollback that
    does not find its record. */
module ClockLimits {
  import opened Visibility
  import opened RowTables
  import opened RowRuns

  /** Unit 0 opens an iterator and inserts the rows below `n`. */
  ghost function Load(n: nat): seq<Event> {
    if n == 0 then [OpenIter(0)] else Load(n - 1) + [Insert(0, n - 1)]
  }

  function Inserts(n: nat): seq<Change> { seq(n, i requires 0 <= i < n => Ins(i)) }

  function Loaded(n: nat): Spec { Spec(n, {}, map[0 := Work(Open, Inserts(n), 0, 1)]) }

  lemma NextInsert(n: nat)
    ensures Enabled(Loaded(n), Insert(0, n)) && Next(Loaded(n), Insert(0, n)) == Loaded(n + 1)
  {
    var w := Work(Open, Inserts(n), 0, 1);
    assert WorkOf(Loaded(n), 0) == w && Unresolved(w) == Inserts(n);
    assert Inserts(n) + [Ins(n)] == Inserts(n + 1);
    assert WorkAfter(w, Insert(0, n)) == Work(Open, Inserts(n + 1), 0, 1);
  }

  lemma {:induction false} LoadIsLegal(n: nat)
    ensures Legal(START, Load(n)) && Run(START, Load(n)) == Loaded(n)
  {
    if n == 0 {
      var s := [OpenIter(0)];
      assert s[1..] == [] && Enabled(START, OpenIter(0)) && Inserts(0) == [];
      assert Legal(START, s) && Run(START, s) == Next(START, OpenIter(0));
    } else {
      LoadIsLegal(n - 1);
      NextInsert(n - 1);
      LegalOneMore(START, Load(n - 1), Insert(0, n - 1));
    }
  }

  /** After `n` registrations of a unit that an iterator keeps busy, its clock has gone on `n` times. */
  ghost predicate IsLoaded(table: ThreadSafeTable, n: nat)
    reads table
  {
    && table.Valid() && table.spec == Loaded(n) && table.rowNum == n
    && 0 in table.units && DataOf(table.units, 0).clock == ClockAfter(n)
  }

  /** Until the clock comes to its largest value it counts one by one. */
  lemma {:induction false} FirstRound(n: nat)
    requires n < NEVER
    ensures ClockAfter(n) == n + 1
  {
    if n == 0 {
    } else {
      FirstRound(n - 1);
    }
  }

  method LoadOne(table: ThreadSafeTable, n: nat)
    requires IsLoaded(table, n) && n < NEVER
    modifies table
    ensures IsLoaded(table, n + 1)
  {
    NextInsert(n);
    FirstRound(n);
    table.InsertRecord(0, n);
  }

  method LoadTable(n: nat) returns (table: ThreadSafeTable)
    requires n <= NEVER
    ensures fresh(table) && IsLoaded(table, n)
  {
    table := new ThreadSafeTable();
    table.OpenIterator(0);
    LoadIsLegal(0);
    var k := 0;
    while k < n
      invariant k <= n && fresh(table) && IsLoaded(table, k)
    {
      LoadOne(table, k);
      k := k + 1;
    }
  }

  lemma NextDelete(n: nat, id: nat)
    requires id < n
    ensures Enabled(Loaded(n), Delete(0, id)) && !Sees(Next(Loaded(n), Delete(0, id)), 0, id)
    ensures WorkOf(Next(Loaded(n), Delete(0, id)), 0) == Work(Open, Inserts(n) + [Del(id)], 0, 1)
  {
    var w := Work(Open, Inserts(n), 0, 1);
    assert WorkOf(Loaded(n), 0) == w && Unresolved(w) == Inserts(n);
    assert Inserts(n)[id] == Ins(id);
    var w' := Work(Open, Inserts(n) + [Del(id)], 0, 1);
    assert WorkOf(Next(Loaded(n), Delete(0, id)), 0) == w';
    assert Unresolved(w') == Inserts(n) + [Del(id)] && w'.all[n] == Del(id) && w'.all[id] == Ins(id);
  }

  /** 2^32 - 2 inserts and one delete: the unit is still shown the row that it has deleted. */
  method ForgottenDelete() returns (table: ThreadSafeTable, shown: bool, ghost events: seq<Event>)
    ensures events == Load(NEVER - 1) + [Delete(0, 0)]
    ensures Legal(START, events) && table.spec == Run(START, events)
    ensures shown && !Sees(table.spec, 0, 0)
  {
    var n := NEVER - 1;
    table := LoadTable(n);
    LoadIsLegal(n);
    NextDelete(n, 0);
    LegalOneMore(START, Load(n), Delete(0, 0));
    FirstRound(n);
    table.RegisterDelete(0, 0);
    shown := table.GetVal(0, 0);
    events := Load(n) + [Delete(0, 0)];
  }

  lemma BackAtZero(n: nat)
    requires n == NEVER
    ensures ClockAfter(n) == 0
  {
    FirstRound(n - 1);
  }

  /** Insert, delete, and roll both back.  The last handler finds its record unless the insert was registered at time
      zero. */
  method InsertAndUndo(table: ThreadSafeTable, r: nat, id: nat) returns (ok: bool)
    requires id <= table.rowNum
    modifies table
    ensures ok <==> DataOf(old(table.units), r).clock != 0
    ensures table.spec ==
      Next(Next(Next(Next(Next(old(table.spec), Insert(r, id)), Delete(r, id)), Rollback(r)), Resolve(r)), Resolve(r))
  {
    table.InsertRecord(r, id);
    table.RegisterDelete(r, id);
    table.Unnoticed(Rollback(r));
    var found := table.RollbackDelete(r, id);
    ok := table.RollbackInsert(r, id);
  }

  /** 2^32 - 1 inserts, then one that is deleted again, then a rollback: undoing the delete drops the record that
      undoing the insert looks for. */
  method LostRecord() returns (table: ThreadSafeTable, ok: bool, ghost events: seq<Event>)
    ensures events ==
      Load(NEVER) + [Insert(0, NEVER)] + [Delete(0, NEVER)] + [Rollback(0)] + [Resolve(0)]
    ensures Legal(START, events + [Resolve(0)]) && table.spec == Run(START, events + [Resolve(0)])
    ensures Resolving(Run(START, events), 0, RollingBack, Ins(NEVER)) && !ok
  {
    var n := NEVER;
    table := LoadTable(n);
    BackAtZero(n);
    ok := InsertAndUndo(table, 0, n);
    events := RollbackRun(n);
  }

  /** The run in question, for any number of inserts before it. */
  lemma RollbackRun(n: nat) returns (events: seq<Event>)
    ensures events == Load(n) + [Insert(0, n)] + [Delete(0, n)] + [Rollback(0)] + [Resolve(0)]
    ensures Resolving(Run(START, events), 0, RollingBack, Ins(n)) && Legal(START, events + [Resolve(0)])
    ensures Run(START, events + [Resolve(0)]) ==
      Next(Next(Next(Next(Next(Loaded(n), Insert(0, n)), Delete(0, n)), Rollback(0)), Resolve(0)), Resolve(0))
  {
    LoadIsLegal(n);
    NextInsert(n);
    NextDelete(n + 1, n);
    var a := Next(Next(Loaded(n + 1), Delete(0, n)), Rollback(0));
    var w := Work(RollingBack, Inserts(n + 1) + [Del(n)], 0, 1);
    assert WorkOf(a, 0) == w && Current(w) == Del(n);
    var w' := w.(done := 1);
    assert WorkOf(Next(a, Resolve(0)), 0) == w' && Current(w') == Ins(n);
    events := Load(n);
    LegalOneMore(START, events, Insert(0, n));
    events := events + [Insert(0, n)];
    LegalOneMore(START, events, Delete(0, n));
    events := events + [Delete(0, n)];
    LegalOneMore(START, events, Rollback(0));
    events := events + [Rollback(0)];
    LegalOneMore(START, events, Resolve(0));
    events := events + [Resolve(0)];
    LegalOneMore(START, events, Resolve(0));
  }
}
