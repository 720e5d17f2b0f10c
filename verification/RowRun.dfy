/** Every interleaving of recovery units over one table, and the limit of the 32-bit clock. */
module RowRuns {
  import opened Visibility
  import opened RowTables

  lemma {:induction false} RunOneMore(a: Spec, events: seq<Event>, i: nat)
    requires i < |events| && Legal(a, events)
    ensures Enabled(Run(a, events[..i]), events[i])
    ensures Run(a, events[..i + 1]) == Next(Run(a, events[..i]), events[i])
    decreases |events|
  {
    if i == 0 {
      assert events[..1][1..] == [];
    } else {
      RunOneMore(Next(a, events[0]), events[1..], i - 1);
      assert events[1..][..i - 1] == events[..i][1..] && events[1..][..i] == events[..i + 1][1..];
    }
  }

  lemma TakeOneMore<T>(s: seq<T>, n: nat)
    requires n < |s|
    ensures s[..n + 1] == s[..n] + [s[n]]
  {
  }

  lemma {:induction false} LegalOneMore(a: Spec, events: seq<Event>, e: Event)
    requires Legal(a, events) && Enabled(Run(a, events), e)
    ensures Legal(a, events + [e]) && Run(a, events + [e]) == Next(Run(a, events), e)
    decreases |events|
  {
    if events == [] {
      assert [e][1..] == [];
    } else {
      LegalOneMore(Next(a, events[0]), events[1..], e);
      assert (events + [e])[1..] == events[1..] + [e];
    }
  }

  // ---- The clock of a unit is told by the schedule.

  function ClockAfter(n: nat): nat { if n == 0 then NEW_UNIT.clock else Tick(ClockAfter(n - 1)) }

  /** The unit has nothing to resolve and no iterator: its data is dropped. */
  ghost predicate Idle(a: Spec, r: nat) { WorkOf(a, r).iters == 0 && Unresolved(WorkOf(a, r)) == [] }

  predicate Registers(e: Event, r: nat) { (e.Insert? || e.Delete?) && e.unit == r }

  /** How many changes unit `r` has registered since it was last idle. */
  ghost function Age(events: seq<Event>, r: nat): nat
    decreases |events|
  {
    if events == [] || Idle(Run(START, events), r) then 0
    else Age(events[..|events| - 1], r) + if Registers(events[|events| - 1], r) then 1 else 0
  }

  ghost predicate ClocksTold(units: map<nat, UnitData>, events: seq<Event>) {
    forall r: nat :: DataOf(units, r).clock == ClockAfter(Age(events, r))
  }

  lemma NoData(rowNum: nat, delmark: set<nat>, free: set<nat>, units: map<nat, UnitData>, a: Spec, r: nat)
    requires TableOk(rowNum, delmark, free, units, a)
    ensures r in units <==> !Idle(a, r)
  {
    var u, w := DataOf(units, r), WorkOf(a, r);
    var rest := Unresolved(w);
    assert UnitOk(u, w);
    if rest != [] {
      assert rest[0] in rest && RowOk(u, w, rest[0].id);
      assert rest[0].id in u.records;
    }
    if |u.records| > 0 {
      var id :| id in u.records;
      assert RowOk(u, w, id);
    }
  }

  ghost predicate DataWhileBusy(units: map<nat, UnitData>, a: Spec) {
    forall r: nat :: r in units <==> !Idle(a, r)
  }

  lemma BusyUnits(rowNum: nat, delmark: set<nat>, free: set<nat>, units: map<nat, UnitData>, a: Spec)
    requires TableOk(rowNum, delmark, free, units, a)
    ensures DataWhileBusy(units, a)
  {
    forall r: nat ensures r in units <==> !Idle(a, r) {
      NoData(rowNum, delmark, free, units, a, r);
    }
  }

  /** What an event does to the clocks. */
  ghost predicate Ticked(units: map<nat, UnitData>, units': map<nat, UnitData>, e: Event) {
    forall r: nat :: r in units' ==>
      units'[r].clock == if Registers(e, r) then Tick(DataOf(units, r).clock) else DataOf(units, r).clock
  }

  /** One more event: a registration lets its unit's clock go on by one, and nothing else does. */
  lemma ClocksOneMore(units: map<nat, UnitData>, units': map<nat, UnitData>, a': Spec, events: seq<Event>, e: Event)
    requires ClocksTold(units, events) && Ticked(units, units', e)
    requires DataWhileBusy(units', a') && a' == Run(START, events + [e])
    ensures ClocksTold(units', events + [e])
  {
    var more := events + [e];
    assert more[..|more| - 1] == events;
    forall r: nat ensures DataOf(units', r).clock == ClockAfter(Age(more, r)) {
      assert DataOf(units, r).clock == ClockAfter(Age(events, r));
    }
  }

  /** The registration finds a clock whose time means something else. */
  ghost predicate AtLimit(events: seq<Event>, i: nat)
    requires i < |events|
  {
    var n := Age(events[..i], events[i].unit) % 0x1_0000_0000;
    (events[i].Insert? && n == 0xFFFF_FFFF) || (events[i].Delete? && n == 0xFFFF_FFFE)
  }

  lemma {:induction false} ClockWraps(n: nat)
    ensures ClockAfter(n) == (n + 1) % 0x1_0000_0000
    ensures ClockAfter(n) == NEVER <==> n % 0x1_0000_0000 == 0xFFFF_FFFE
    ensures ClockAfter(n) == 0 <==> n % 0x1_0000_0000 == 0xFFFF_FFFF
  {
    if n == 0 {
    } else {
      ClockWraps(n - 1);
      TickMod(n);
    }
    LastValues(n);
  }

  lemma TickMod(n: nat)
    ensures Tick(n % 0x1_0000_0000) == (n + 1) % 0x1_0000_0000
  {
    var q, r := n / 0x1_0000_0000, n % 0x1_0000_0000;
    assert n == q * 0x1_0000_0000 + r;
    if r == 0xFFFF_FFFF {
      assert n + 1 == (q + 1) * 0x1_0000_0000;
    } else {
      assert n + 1 == q * 0x1_0000_0000 + (r + 1);
    }
  }

  lemma LastValues(n: nat)
    ensures (n + 1) % 0x1_0000_0000 == NEVER <==> n % 0x1_0000_0000 == 0xFFFF_FFFE
    ensures (n + 1) % 0x1_0000_0000 == 0 <==> n % 0x1_0000_0000 == 0xFFFF_FFFF
  {
    TickMod(n);
  }

  lemma ReadyIsBelowLimit(units: map<nat, UnitData>, events: seq<Event>, i: nat)
    requires i < |events| && ClocksTold(units, events[..i])
    ensures ClockReady(DataOf(units, events[i].unit), events[i]) <==> !AtLimit(events, i)
  {
    ClockWraps(Age(events[..i], events[i].unit));
  }

  lemma {:induction false} AgeBound(events: seq<Event>, r: nat)
    ensures Age(events, r) <= |events|
    decreases |events|
  {
    if events == [] {
    } else {
      AgeBound(events[..|events| - 1], r);
    }
  }

  /** No schedule comes to the limit in its first 2^32 - 2 steps. */
  lemma LimitIsFar(events: seq<Event>, i: nat)
    requires i < |events| && AtLimit(events, i)
    ensures i >= 0xFFFF_FFFE
  {
    AgeBound(events[..i], events[i].unit);
  }

  // ---- Single events.

  /** The recovery unit calls the handler of the change that is next to be resolved. */
  method ResolveNext(table: ThreadSafeTable, r: nat, committing: bool, c: Change)
    requires table.Valid() && Resolving(table.spec, r, if committing then Committing else RollingBack, c)
    modifies table
    ensures table.Valid() && table.spec == Next(old(table.spec), Resolve(r))
    ensures ClocksKept(old(table.units), table.units)
  {
    var ok;
    match c {
      case Ins(id) => if committing { ok := table.CommitInsert(r, id); } else { ok := table.RollbackInsert(r, id); }
      case Del(id) => if committing { ok := table.CommitDelete(r, id); } else { ok := table.RollbackDelete(r, id); }
    }
  }

  method PerformQuiet(table: ThreadSafeTable, env: Spec, e: Event) returns (answer: bool)
    requires table.Valid() && table.spec == env && Enabled(env, e) && !e.Insert? && !e.Delete?
    modifies table
    ensures table.Valid() && table.spec == Next(env, e) && ClocksKept(old(table.units), table.units)
    ensures e.Look? ==> (answer <==> Sees(env, e.unit, e.id))
  {
    answer := false;
    if e.Resolve? {
      var w := WorkOf(env, e.unit);
      ResolveNext(table, e.unit, w.phase == Committing, Current(w));
    } else if e.OpenIter? {
      table.OpenIterator(e.unit);
    } else if e.CloseIter? {
      table.CloseIterator(e.unit);
    } else {
      if e.Look? {
        table.Kept(e.unit);
        answer := table.GetVal(e.unit, e.id);
      }
      table.Unnoticed(e);
    }
  }

  method Perform(table: ThreadSafeTable, env: Spec, e: Event) returns (answer: bool)
    requires table.Valid() && table.spec == env && Enabled(env, e) && ClockReady(DataOf(table.units, e.unit), e)
    modifies table
    ensures table.Valid() && table.spec == Next(env, e) && Ticked(old(table.units), table.units, e)
    ensures e.Look? ==> (answer <==> Sees(env, e.unit, e.id))
  {
    answer := false;
    match e {
      case Insert(r, id) =>
        table.InsertRecord(r, id);
      case Delete(r, id) =>
        table.RegisterDelete(r, id);
      case _ =>
        answer := PerformQuiet(table, env, e);
    }
  }

  // ---- Whole runs.

  ghost predicate AnsweredAt(events: seq<Event>, i: nat, answer: bool)
    requires i < |events|
  {
    events[i].Look? ==> (answer <==> Sees(Run(START, events[..i]), events[i].unit, events[i].id))
  }

  /** Every look so far was answered by what its unit is to see at that moment, and no registration met the limit. */
  ghost predicate Answered(events: seq<Event>, answers: seq<bool>)
    requires |answers| <= |events|
  {
    forall i :: 0 <= i < |answers| ==> AnsweredAt(events, i, answers[i]) && !AtLimit(events, i)
  }

  lemma AnsweredOneMore(events: seq<Event>, answers: seq<bool>, answer: bool)
    requires |answers| < |events| && Answered(events, answers) && AnsweredAt(events, |answers|, answer)
    requires !AtLimit(events, |answers|)
    ensures Answered(events, answers + [answer])
  {
    var more := answers + [answer];
    forall i | 0 <= i < |more| ensures AnsweredAt(events, i, more[i]) && !AtLimit(events, i) {
      if i < |answers| { assert AnsweredAt(events, i, answers[i]); }
    }
  }

  /** The state and the clocks after the events answered so far. */
  ghost predicate Told(units: map<nat, UnitData>, a: Spec, events: seq<Event>, answers: seq<bool>) {
    && |answers| <= |events| && a == Run(START, events[..|answers|])
    && ClocksTold(units, events[..|answers|]) && Answered(events, answers)
  }

  lemma ToldOneMore(units: map<nat, UnitData>, units': map<nat, UnitData>, a: Spec, a': Spec, events: seq<Event>,
      answers: seq<bool>, answer: bool)
    requires Legal(START, events) && |answers| < |events| && Told(units, a, events, answers)
    requires var e := events[|answers|];
      && ClockReady(DataOf(units, e.unit), e) && Ticked(units, units', e) && a' == Next(a, e)
      && (e.Look? ==> (answer <==> Sees(a, e.unit, e.id)))
    requires DataWhileBusy(units', a')
    ensures Told(units', a', events, answers + [answer])
  {
    var n, e := |answers|, events[|answers|];
    RunOneMore(START, events, n);
    assert ClocksTold(units', events[..n + 1]) by {
      TakeOneMore(events, n);
      ClocksOneMore(units, units', a', events[..n], e);
    }
    assert Answered(events, answers + [answer]) by {
      ReadyIsBelowLimit(units, events, n);
      AnsweredOneMore(events, answers, answer);
    }
  }

  method ReplayOne(table: ThreadSafeTable, env: Spec, events: seq<Event>, answers: seq<bool>) returns (env': Spec,
      answers': seq<bool>)
    requires table.Valid() && Legal(START, events) && Told(table.units, env, events, answers) && env == table.spec
    requires |answers| < |events| && ClockReady(DataOf(table.units, events[|answers|].unit), events[|answers|])
    modifies table
    ensures |answers'| == |answers| + 1
    ensures table.Valid() && env' == table.spec && Told(table.units, env', events, answers')
  {
    ghost var units := table.units;
    RunOneMore(START, events, |answers|);
    var answer := Perform(table, env, events[|answers|]);
    env', answers' := Next(env, events[|answers|]), answers + [answer];
    BusyUnits(table.rowNum, table.delmark, table.free, table.units, table.spec);
    ToldOneMore(units, table.units, env, env', events, answers, answer);
  }

  /** Any legal schedule of any number of units: every look is answered as the specification says, and the table
      stands for the specified state and every clock for the age of its unit all along, exactly up to the first
      registration at the limit of its unit's clock. */
  method Replay(events: seq<Event>) returns (table: ThreadSafeTable, answers: seq<bool>)
    requires Legal(START, events)
    ensures table.Valid() && |answers| <= |events| && table.spec == Run(START, events[..|answers|])
    ensures Answered(events, answers) && ClocksTold(table.units, events[..|answers|])
    ensures |answers| < |events| ==> AtLimit(events, |answers|)
  {
    table := new ThreadSafeTable();
    var env := START;
    answers := [];
    assert events[..0] == [];
    while |answers| < |events| && ClockReady(DataOf(table.units, events[|answers|].unit), events[|answers|])
      invariant fresh(table) && table.Valid() && env == table.spec && Told(table.units, env, events, answers)
      decreases |events| - |answers|
    {
      env, answers := ReplayOne(table, env, events, answers);
    }
    if |answers| < |events| { ReadyIsBelowLimit(table.units, events, |answers|); }
  }
}
