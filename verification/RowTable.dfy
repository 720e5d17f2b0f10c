/** `ThreadSafeTable`: delete marks plus one record of times per recovery unit, refining Visibility. */
module RowTables {
  import opened Visibility

  /** A delete time that says "not deleted": the largest 32-bit number. */
  const NEVER: nat := 0xFFFF_FFFF

  function Tick(t: nat): nat { (t + 1) % 0x1_0000_0000 }

  datatype Times = Times(insert: nat, delete: nat)

  datatype UnitData = UnitData(records: map<nat, Times>, iterNum: nat, clock: nat)

  const NEW_UNIT: UnitData := UnitData(map[], 0, 1)

  function DataOf(units: map<nat, UnitData>, r: nat): UnitData { if r in units then units[r] else NEW_UNIT }

  /** A record that is not there yet starts with both times zero. */
  function TimesOf(u: UnitData, id: nat): Times { if id in u.records then u.records[id] else Times(0, 0) }

  function Inserted(u: UnitData, id: nat): UnitData {
    u.(records := u.records[id := Times(u.clock, NEVER)], clock := Tick(u.clock))
  }

  function Deleted(u: UnitData, id: nat): UnitData {
    u.(records := u.records[id := TimesOf(u, id).(delete := u.clock)], clock := Tick(u.clock))
  }

  function Registered(u: UnitData, e: Event): UnitData
    requires e.Insert? || e.Delete?
  {
    if e.Insert? then Inserted(u, e.id) else Deleted(u, e.id)
  }

  function Dropped(u: UnitData, id: nat): UnitData { u.(records := u.records - {id}) }

  /** What the unit's own record says of a row, if it has one. */
  predicate Shows(u: UnitData, id: nat) { id in u.records && u.records[id].delete == NEVER }

  /** The clock does not give a time that means something else: zero for an insert, NEVER for a delete. */
  predicate ClockReady(u: UnitData, e: Event) {
    (e.Insert? ==> u.clock != 0) && (e.Delete? ==> u.clock != NEVER)
  }

  // ---- The times stand for the changes.

  ghost predicate EntryOk(t: Times, w: Work, id: nat) {
    (t.delete == NEVER <==> Del(id) !in w.all) && (t.insert != 0 <==> Ins(id) in w.all)
  }

  /** A row has a record exactly while one of its changes is to be resolved. */
  ghost predicate RowOk(u: UnitData, w: Work, id: nat) {
    (id in u.records <==> Mentions(Unresolved(w), id)) && (id in u.records ==> EntryOk(u.records[id], w, id))
  }

  ghost predicate UnitOk(u: UnitData, w: Work) {
    u.iterNum == w.iters && forall id: nat :: RowOk(u, w, id)
  }

  ghost predicate Couples(rowNum: nat, delmark: set<nat>, units: map<nat, UnitData>, a: Spec) {
    && Inv(a) && rowNum == a.rows
    && (forall id: nat :: id in a.committed <==> id < rowNum && id !in delmark)
    && (forall r: nat :: UnitOk(DataOf(units, r), WorkOf(a, r)))
  }

  predicate InUse(u: UnitData) { |u.records| > 0 || u.iterNum > 0 }

  /** Nothing is kept for a unit without changes and iterators. */
  ghost predicate Tidy(units: map<nat, UnitData>) {
    forall r :: r in units ==> InUse(units[r])
  }

  lemma RegisterRow(u: UnitData, w: Work, e: Event, id: nat)
    requires RowOk(u, w, id) && WorkOk(w) && w.phase == Open && ClockReady(u, e)
    requires (e.Insert? && !Mentions(Unresolved(w), e.id)) || (e.Delete? && Del(e.id) !in w.all && RowOk(u, w, e.id))
    ensures RowOk(Registered(u, e), WorkAfter(w, e), id)
  {
    assert Unresolved(w) == w.all;
    if e.Insert? {
      assert Unresolved(WorkAfter(w, e)) == w.all + [Ins(e.id)];
    } else {
      assert Unresolved(WorkAfter(w, e)) == w.all + [Del(e.id)];
    }
  }

  lemma RegisterUnit(u: UnitData, w: Work, e: Event)
    requires UnitOk(u, w) && WorkOk(w) && w.phase == Open && ClockReady(u, e)
    requires (e.Insert? && !Mentions(Unresolved(w), e.id)) || (e.Delete? && Del(e.id) !in w.all)
    ensures UnitOk(Registered(u, e), WorkAfter(w, e))
  {
    var u', w' := Registered(u, e), WorkAfter(w, e);
    forall id: nat ensures RowOk(u', w', id) {
      assert RowOk(u, w, id) && RowOk(u, w, e.id);
      RegisterRow(u, w, e, id);
    }
  }

  /** What resolving a change leaves of the record. */
  function Kept(u: UnitData, w: Work): UnitData
    requires w.done < |w.all|
  {
    if Lingers(w, Current(w)) then u else Dropped(u, Current(w).id)
  }

  lemma ResolveUnit(u: UnitData, w: Work)
    requires UnitOk(u, w) && WorkOk(w) && w.phase != Open && w.done < |w.all|
    ensures Current(w).id in u.records && EntryOk(u.records[Current(w).id], w, Current(w).id)
    ensures UnitOk(Kept(u, w), w.(done := w.done + 1))
  {
    var u', w' := Kept(u, w), w.(done := w.done + 1);
    ResolveMentions(w, Current(w).id);
    assert RowOk(u, w, Current(w).id);
    forall id: nat ensures RowOk(u', w', id) {
      assert RowOk(u, w, id);
      ResolveMentions(w, id);
    }
  }

  lemma QuietUnit(a: Spec, e: Event, u: UnitData)
    requires Inv(a) && Enabled(a, e) && !e.Insert? && !e.Delete? && !e.Resolve? && UnitOk(u, WorkOf(a, e.unit))
    ensures UnitOk(u.(iterNum := WorkOf(Next(a, e), e.unit).iters), WorkOf(Next(a, e), e.unit))
  {
    QuietInv(a, e);
    var w, w' := WorkOf(a, e.unit), WorkOf(Next(a, e), e.unit);
    var u' := u.(iterNum := w'.iters);
    assert WorkOk(w);
    forall id: nat ensures RowOk(u', w', id) {
      assert RowOk(u, w, id);
    }
  }

  /** One step of one unit, on the whole table. */
  lemma Advance(rowNum: nat, delmark: set<nat>, units: map<nat, UnitData>, a: Spec, e: Event, rowNum': nat,
      delmark': set<nat>, units': map<nat, UnitData>)
    requires Couples(rowNum, delmark, units, a) && Enabled(a, e)
    requires rowNum' == Next(a, e).rows
    requires forall id: nat :: id in Next(a, e).committed <==> id < rowNum' && id !in delmark'
    requires forall r :: r != e.unit ==> DataOf(units', r) == DataOf(units, r)
    requires UnitOk(DataOf(units', e.unit), WorkOf(Next(a, e), e.unit))
    ensures Couples(rowNum', delmark', units', Next(a, e))
  {
    StepInv(a, e);
    forall r: nat ensures UnitOk(DataOf(units', r), WorkOf(Next(a, e), r)) {
      if r != e.unit {
        OtherUnits(a, e, r);
        assert UnitOk(DataOf(units, r), WorkOf(a, r));
      }
    }
  }

  /** The record and the delete mark together decide what a unit sees. */
  lemma SeesRecord(rowNum: nat, delmark: set<nat>, units: map<nat, UnitData>, a: Spec, r: nat, id: nat)
    requires Couples(rowNum, delmark, units, a)
    ensures id in DataOf(units, r).records ==> (Sees(a, r, id) <==> Shows(DataOf(units, r), id))
    ensures id !in DataOf(units, r).records ==> (Sees(a, r, id) <==> id < rowNum && id !in delmark)
  {
    var u, w := DataOf(units, r), WorkOf(a, r);
    assert UnitOk(u, w) && WorkOk(w) && RowOk(u, w, id);
    if id in u.records {
      assert Mentions(Unresolved(w), id) && EntryOk(u.records[id], w, id);
      if Ins(id) !in Unresolved(w) {
        assert Del(id) in Unresolved(w);
        assert Del(id) in w.all;
      }
    } else {
      assert !Mentions(Unresolved(w), id);
    }
  }

  // ---- Each operation against its event.

  lemma InsertStep(rowNum: nat, delmark: set<nat>, units: map<nat, UnitData>, a: Spec, r: nat, id: nat)
    requires Couples(rowNum, delmark, units, a) && Enabled(a, Insert(r, id)) &&
        ClockReady(DataOf(units, r), Insert(r, id))
    ensures Couples(if id == rowNum then rowNum + 1 else rowNum, delmark + {id},
        units[r := Inserted(DataOf(units, r), id)], Next(a, Insert(r, id)))
  {
    var e := Insert(r, id);
    assert UnitOk(DataOf(units, r), WorkOf(a, r)) && WorkOk(WorkOf(a, r));
    assert Fresh(a, id);
    RegisterUnit(DataOf(units, r), WorkOf(a, r), e);
    Advance(rowNum, delmark, units, a, e, if id == rowNum then rowNum + 1 else rowNum, delmark + {id},
        units[r := Inserted(DataOf(units, r), id)]);
  }

  lemma DeleteStep(rowNum: nat, delmark: set<nat>, units: map<nat, UnitData>, a: Spec, r: nat, id: nat)
    requires Couples(rowNum, delmark, units, a) && Enabled(a, Delete(r, id)) &&
        ClockReady(DataOf(units, r), Delete(r, id))
    ensures Couples(rowNum, delmark, units[r := Deleted(DataOf(units, r), id)], Next(a, Delete(r, id)))
  {
    var e := Delete(r, id);
    assert UnitOk(DataOf(units, r), WorkOf(a, r)) && WorkOk(WorkOf(a, r));
    RegisterUnit(DataOf(units, r), WorkOf(a, r), e);
    Advance(rowNum, delmark, units, a, e, rowNum, delmark, units[r := Deleted(DataOf(units, r), id)]);
  }

  /** What the delete marks become when the next change of `w` is resolved. */
  function Remarked(delmark: set<nat>, w: Work): set<nat>
    requires w.done < |w.all|
  {
    if w.phase.RollingBack? || Lingers(w, Current(w)) then delmark
    else if Current(w).Ins? then delmark - {Current(w).id}
    else delmark + {Current(w).id}
  }

  /** The next change of `r` has a record, and its times tell what is to be done. */
  lemma ResolveEntry(rowNum: nat, delmark: set<nat>, units: map<nat, UnitData>, a: Spec, r: nat)
    requires Couples(rowNum, delmark, units, a) && Enabled(a, Resolve(r))
    ensures r in units && Current(WorkOf(a, r)).id in units[r].records
    ensures EntryOk(units[r].records[Current(WorkOf(a, r)).id], WorkOf(a, r), Current(WorkOf(a, r)).id)
    ensures Current(WorkOf(a, r)) in WorkOf(a, r).all
    ensures Ins(Current(WorkOf(a, r)).id) in WorkOf(a, r).all ==> Current(WorkOf(a, r)).id in delmark
  {
    var w := WorkOf(a, r);
    var id := Current(w).id;
    assert UnitOk(DataOf(units, r), w) && WorkOk(w);
    ResolveUnit(DataOf(units, r), w);
    ResolveMentions(w, id);
    assert Mentions(Unresolved(w), id);
    if Ins(id) in w.all {
      assert Owned(a, r, id) && Private(a, r, id);
    }
  }

  lemma ResolveStep(rowNum: nat, delmark: set<nat>, units: map<nat, UnitData>, a: Spec, r: nat, delmark': set<nat>,
      units': map<nat, UnitData>)
    requires Couples(rowNum, delmark, units, a) && Enabled(a, Resolve(r))
    requires delmark' == Remarked(delmark, WorkOf(a, r))
    requires forall q :: q != r ==> DataOf(units', q) == DataOf(units, q)
    requires DataOf(units', r).records == Kept(DataOf(units, r), WorkOf(a, r)).records &&
        DataOf(units', r).iterNum == DataOf(units, r).iterNum
    ensures Couples(rowNum, delmark', units', Next(a, Resolve(r)))
  {
    var e, w := Resolve(r), WorkOf(a, r);
    assert UnitOk(DataOf(units, r), w) && WorkOk(w);
    ResolveUnit(DataOf(units, r), w);
    ResolveEntry(rowNum, delmark, units, a, r);
    RecordsDecide(Kept(DataOf(units, r), w), DataOf(units', r), w.(done := w.done + 1));
    assert Mentions(Unresolved(w), Current(w).id) by { ResolveMentions(w, 0); }
    Advance(rowNum, delmark, units, a, e, rowNum, delmark', units');
  }

  lemma RecordsDecide(u: UnitData, u': UnitData, w: Work)
    requires UnitOk(u, w) && u'.records == u.records && u'.iterNum == u.iterNum
    ensures UnitOk(u', w)
  {
    forall id: nat ensures RowOk(u', w, id) {
      assert RowOk(u, w, id);
    }
  }

  lemma QuietStep(rowNum: nat, delmark: set<nat>, units: map<nat, UnitData>, a: Spec, e: Event,
      units': map<nat, UnitData>)
    requires Couples(rowNum, delmark, units, a) && Enabled(a, e) && !e.Insert? && !e.Delete? && !e.Resolve?
    requires forall q :: q != e.unit ==> DataOf(units', q) == DataOf(units, q)
    requires DataOf(units', e.unit).records == DataOf(units, e.unit).records
    requires DataOf(units', e.unit).iterNum == WorkOf(Next(a, e), e.unit).iters
    ensures Couples(rowNum, delmark, units', Next(a, e))
  {
    var u := DataOf(units, e.unit);
    assert UnitOk(u, WorkOf(a, e.unit));
    QuietUnit(a, e, u);
    RecordsDecide(u.(iterNum := WorkOf(Next(a, e), e.unit).iters), DataOf(units', e.unit), WorkOf(Next(a, e), e.unit));
    Advance(rowNum, delmark, units, a, e, rowNum, delmark, units');
  }

  /** Rows on the free list are hidden from everyone and may be given out again. */
  ghost predicate Free(free: set<nat>, a: Spec) {
    forall id :: id in free ==> id < a.rows && Fresh(a, id)
  }

  lemma FreeStep(free: set<nat>, a: Spec, e: Event)
    requires Inv(a) && Enabled(a, e) && Free(free, a) && !(e.Insert? && e.id in free)
    ensures Free(free, Next(a, e))
  {
    forall id | id in free ensures Fresh(Next(a, e), id) {
      assert Fresh(a, id);
      FreshStep(a, e, id);
    }
  }

  lemma FreshStep(a: Spec, e: Event, id: nat)
    requires Inv(a) && Enabled(a, e) && Fresh(a, id) && !(e.Insert? && e.id == id)
    ensures Fresh(Next(a, e), id)
  {
    var a', w := Next(a, e), WorkOf(a, e.unit);
    assert !Mentions(Unresolved(w), id) && WorkOk(w);
    forall q ensures !Mentions(Unresolved(WorkOf(a', q)), id) {
      if q != e.unit {
        OtherUnits(a, e, q);
      } else if e.Insert? || e.Delete? {
        RegisterWork(a, e);
      } else if e.Resolve? {
        ResolveMentions(w, id);
      } else {
        QuietInv(a, e);
      }
    }
    if e.Resolve? {
      ResolveMentions(w, id);
    }
  }

  /** A rolled back row is free. */
  lemma RolledBackFree(a: Spec, r: nat)
    requires Inv(a) && Enabled(a, Resolve(r)) && WorkOf(a, r).phase == RollingBack && Current(WorkOf(a, r)).Ins?
    ensures Current(WorkOf(a, r)).id < a.rows && Fresh(Next(a, Resolve(r)), Current(WorkOf(a, r)).id)
  {
    var w, e := WorkOf(a, r), Resolve(r);
    var id := Current(w).id;
    assert WorkOk(w);
    ResolveMentions(w, id);
    assert Mentions(Unresolved(w), id);
    assert Owned(a, r, id) && Private(a, r, id);
    forall q ensures !Mentions(Unresolved(WorkOf(Next(a, e), q)), id) {
      if q != r { OtherUnits(a, e, q); }
    }
  }

  /** The record of `r` after its next change is resolved; nothing is kept without need. */
  ghost predicate Resolved(units: map<nat, UnitData>, units': map<nat, UnitData>, r: nat, w: Work)
    requires w.done < |w.all|
  {
    && DataOf(units', r).records == Kept(DataOf(units, r), w).records
    && DataOf(units', r).iterNum == DataOf(units, r).iterNum
    && (r in units' ==> InUse(units'[r]))
    && forall q :: q != r ==> (q in units' <==> q in units) && DataOf(units', q) == DataOf(units, q)
  }

  lemma ResolveOk(rowNum: nat, delmark: set<nat>, free: set<nat>, units: map<nat, UnitData>, a: Spec, r: nat,
    delmark': set<nat>, free': set<nat>, units': map<nat, UnitData>)
    requires TableOk(rowNum, delmark, free, units, a) && Enabled(a, Resolve(r))
    requires delmark' == Remarked(delmark, WorkOf(a, r)) && Resolved(units, units', r, WorkOf(a, r))
    requires free' == free ||
      (WorkOf(a, r).phase == RollingBack && Current(WorkOf(a, r)).Ins? && free' == free + {Current(WorkOf(a, r)).id})
    ensures TableOk(rowNum, delmark', free', units', Next(a, Resolve(r)))
  {
    ResolveStep(rowNum, delmark, units, a, r, delmark', units');
    FreeStep(free, a, Resolve(r));
    if free' != free {
      RolledBackFree(a, r);
    }
    forall q | q in units' ensures InUse(units'[q]) {
      if q != r { assert units'[q] == units[q]; }
    }
  }

  lemma QuietOk(rowNum: nat, delmark: set<nat>, free: set<nat>, units: map<nat, UnitData>, a: Spec, e: Event,
      units': map<nat, UnitData>)
    requires TableOk(rowNum, delmark, free, units, a) && Enabled(a, e) && !e.Insert? && !e.Delete? && !e.Resolve?
    requires DataOf(units', e.unit).records == DataOf(units, e.unit).records
    requires DataOf(units', e.unit).iterNum == WorkOf(Next(a, e), e.unit).iters
    requires e.unit in units' ==> InUse(units'[e.unit])
    requires forall q :: q != e.unit ==> (q in units' <==> q in units) && DataOf(units', q) == DataOf(units, q)
    ensures TableOk(rowNum, delmark, free, units', Next(a, e))
  {
    QuietStep(rowNum, delmark, units, a, e, units');
    FreeStep(free, a, e);
    forall q | q in units' ensures InUse(units'[q]) {
      if q != e.unit { assert units'[q] == units[q]; }
    }
  }

  /** One iterator less, and nothing left of the unit if that was all there was. */
  function Closed(units: map<nat, UnitData>, r: nat): map<nat, UnitData>
    requires r in units && units[r].iterNum > 0
  {
    var left := units[r := units[r].(iterNum := units[r].iterNum - 1)];
    if left[r].iterNum == 0 && |left[r].records| == 0 then left - {r} else left
  }

  lemma CloseOk(rowNum: nat, delmark: set<nat>, free: set<nat>, units: map<nat, UnitData>, a: Spec, r: nat)
    requires TableOk(rowNum, delmark, free, units, a) && Enabled(a, CloseIter(r))
    ensures r in units && units[r].iterNum > 0 && ClocksKept(units, Closed(units, r))
    ensures TableOk(rowNum, delmark, free, Closed(units, r), Next(a, CloseIter(r)))
  {
    assert UnitOk(DataOf(units, r), WorkOf(a, r));
    QuietOk(rowNum, delmark, free, units, a, CloseIter(r), Closed(units, r));
  }

  lemma TwiceUpdated(units: map<nat, UnitData>, r: nat, u: UnitData, v: UnitData)
    requires Tidy(units) && InUse(v)
    ensures units[r := u][r := v] == units[r := v] && Tidy(units[r := v])
  {
  }

  ghost predicate TableOk(rowNum: nat, delmark: set<nat>, free: set<nat>, units: map<nat, UnitData>, a: Spec) {
    Couples(rowNum, delmark, units, a) && Tidy(units) && Free(free, a)
  }

  /** No clock goes on, and a unit's data is made anew with its first time. */
  ghost predicate ClocksKept(units: map<nat, UnitData>, units': map<nat, UnitData>) {
    forall r :: r in units' ==> units'[r].clock == DataOf(units, r).clock
  }

  // ---- The limits of the clock.

  /** What an iterator of `r` is given of row `id`. */
  predicate Shown(rowNum: nat, delmark: set<nat>, units: map<nat, UnitData>, r: nat, id: nat) {
    var u := DataOf(units, r);
    if id in u.records then u.records[id].delete == NEVER else id < rowNum && id !in delmark
  }

  /** A registration at the wrong time leaves a record that says something else. */
  lemma WrongTime(rowNum: nat, delmark: set<nat>, units: map<nat, UnitData>, a: Spec, e: Event)
    requires (e.Insert? || e.Delete?) && !ClockReady(DataOf(units, e.unit), e)
    ensures !Couples(rowNum, delmark, units[e.unit := Registered(DataOf(units, e.unit), e)], Next(a, e))
  {
    var u, w := Registered(DataOf(units, e.unit), e), WorkOf(Next(a, e), e.unit);
    assert DataOf(units[e.unit := u], e.unit) == u;
    if e.Insert? {
      assert Ins(e.id) in w.all;
    } else {
      assert Del(e.id) in w.all;
    }
    assert !RowOk(u, w, e.id);
  }

  /** Row `id` is written but not registered: with its mark it would be a row that nobody knows of. */
  ghost predicate WrittenOk(rowNum: nat, delmark: set<nat>, free: set<nat>, units: map<nat, UnitData>, a: Spec,
      id: nat) {
    && TableOk(a.rows, delmark + {id}, free, units, a) && Fresh(a, id) && id <= a.rows && id !in free
    && rowNum == if id == a.rows then a.rows + 1 else a.rows
  }

  /** A row that nobody knows of has no records and is marked, if it exists. */
  lemma FreshRow(rowNum: nat, delmark: set<nat>, units: map<nat, UnitData>, a: Spec, id: nat)
    requires Couples(rowNum, delmark, units, a) && Fresh(a, id)
    ensures forall r: nat :: id !in DataOf(units, r).records
    ensures id < rowNum ==> id in delmark
    ensures forall x: nat :: x in a.committed <==> x < rowNum && x !in delmark + {id}
  {
    forall r: nat ensures id !in DataOf(units, r).records {
      assert UnitOk(DataOf(units, r), WorkOf(a, r)) && RowOk(DataOf(units, r), WorkOf(a, r), id);
    }
  }

  lemma WriteOk(rowNum: nat, delmark: set<nat>, free: set<nat>, units: map<nat, UnitData>, a: Spec, id: nat)
    requires TableOk(rowNum, delmark, free, units, a) && Fresh(a, id) && id <= rowNum
    ensures WrittenOk(if id == rowNum then rowNum + 1 else rowNum, delmark - {id}, free - {id}, units, a, id)
  {
    FreshRow(rowNum, delmark, units, a, id);
    assert delmark - {id} + {id} == delmark + {id};
  }

  lemma InsertOk(rowNum: nat, delmark: set<nat>, free: set<nat>, units: map<nat, UnitData>, a: Spec, r: nat, id: nat)
    requires WrittenOk(rowNum, delmark, free, units, a, id) && WorkOf(a, r).phase == Open
    ensures TableOk(rowNum, delmark + {id}, free, units[r := Inserted(DataOf(units, r), id)], Next(a, Insert(r, id)))
      <==> ClockReady(DataOf(units, r), Insert(r, id))
  {
    var e := Insert(r, id);
    if ClockReady(DataOf(units, r), e) {
      InsertStep(a.rows, delmark + {id}, units, a, r, id);
      assert delmark + {id} + {id} == delmark + {id};
      FreeStep(free, a, e);
      TwiceUpdated(units, r, DataOf(units, r), Inserted(DataOf(units, r), id));
    } else {
      WrongTime(rowNum, delmark + {id}, units, a, e);
    }
  }

  lemma DeleteOk(rowNum: nat, delmark: set<nat>, free: set<nat>, units: map<nat, UnitData>, a: Spec, r: nat, id: nat)
    requires TableOk(rowNum, delmark, free, units, a) && Enabled(a, Delete(r, id))
    ensures TableOk(rowNum, delmark, free, units[r := Deleted(DataOf(units, r), id)], Next(a, Delete(r, id)))
      <==> ClockReady(DataOf(units, r), Delete(r, id))
  {
    var e := Delete(r, id);
    if ClockReady(DataOf(units, r), e) {
      DeleteStep(rowNum, delmark, units, a, r, id);
      FreeStep(free, a, e);
      TwiceUpdated(units, r, DataOf(units, r), Deleted(DataOf(units, r), id));
    } else {
      WrongTime(rowNum, delmark, units, a, e);
    }
  }

  /** The record of row `id` is gone from the data of `r`, and the data too if there was nothing else. */
  ghost predicate EntryGone(units: map<nat, UnitData>, units': map<nat, UnitData>, r: nat, id: nat) {
    && DataOf(units', r).records == DataOf(units, r).records - {id}
    && DataOf(units', r).iterNum == DataOf(units, r).iterNum
    && (r in units' ==> InUse(units'[r]) && units'[r].clock == DataOf(units, r).clock)
    && forall q :: q != r ==> (q in units' <==> q in units) && DataOf(units', q) == DataOf(units, q)
  }

  /** The times of the record tell the handler whether the row has another change to be settled. */
  lemma HandlerFinds(rowNum: nat, delmark: set<nat>, free: set<nat>, units: map<nat, UnitData>, a: Spec, r: nat,
      phase: Phase, c: Change)
    requires TableOk(rowNum, delmark, free, units, a) && Resolving(a, r, phase, c) && phase != Open
    ensures r in units && c.id in units[r].records
    ensures c.Del? ==> units[r].records[c.id].delete != NEVER
    ensures phase == Committing && c.Ins? ==> (Lingers(WorkOf(a, r), c) <==> units[r].records[c.id].delete != NEVER)
    ensures phase == RollingBack && c.Del? ==> (Lingers(WorkOf(a, r), c) <==> units[r].records[c.id].insert != 0)
    ensures phase == Committing && c.Del? ==> !Lingers(WorkOf(a, r), c)
    ensures phase == Committing && c.Del? && units[r].records[c.id].insert != 0 ==> c.id in delmark
    ensures phase == RollingBack && c.Ins? ==> !Lingers(WorkOf(a, r), c)
  {
    ResolveEntry(rowNum, delmark, units, a, r);
  }

  /** Unit `r` is to settle the change `c` next. */
  ghost predicate Resolving(a: Spec, r: nat, phase: Phase, c: Change) {
    Enabled(a, Resolve(r)) && WorkOf(a, r).phase == phase && Current(WorkOf(a, r)) == c
  }

  function WithoutEntry(units: map<nat, UnitData>, r: nat, id: nat): map<nat, UnitData>
    requires r in units
  {
    if |units[r].records| == 1 && units[r].iterNum == 0 then units - {r} else units[r := Dropped(units[r], id)]
  }

  lemma EntryIsGone(units: map<nat, UnitData>, r: nat, id: nat)
    requires r in units && id in units[r].records
    ensures EntryGone(units, WithoutEntry(units, r, id), r, id) && ClocksKept(units, WithoutEntry(units, r, id))
  {
    OneLess(units[r].records, id);
  }

  lemma CommitInsertOk(rowNum: nat, delmark: set<nat>, free: set<nat>, units: map<nat, UnitData>, a: Spec, r: nat,
      id: nat)
    requires TableOk(rowNum, delmark, free, units, a) && Resolving(a, r, Committing, Ins(id))
    ensures r in units && id in units[r].records
    ensures if units[r].records[id].delete == NEVER
      then TableOk(rowNum, delmark - {id}, free, WithoutEntry(units, r, id), Next(a, Resolve(r)))
      else TableOk(rowNum, delmark, free, units, Next(a, Resolve(r)))
  {
    HandlerFinds(rowNum, delmark, free, units, a, r, Committing, Ins(id));
    EntryIsGone(units, r, id);
    if units[r].records[id].delete == NEVER {
      ResolveOk(rowNum, delmark, free, units, a, r, delmark - {id}, free, WithoutEntry(units, r, id));
    } else {
      ResolveOk(rowNum, delmark, free, units, a, r, delmark, free, units);
    }
  }

  lemma RollbackInsertOk(rowNum: nat, delmark: set<nat>, free: set<nat>, units: map<nat, UnitData>, a: Spec, r: nat,
      id: nat)
    requires TableOk(rowNum, delmark, free, units, a) && Resolving(a, r, RollingBack, Ins(id))
    ensures r in units && id in units[r].records
    ensures TableOk(rowNum, delmark, free + {id}, WithoutEntry(units, r, id), Next(a, Resolve(r)))
  {
    HandlerFinds(rowNum, delmark, free, units, a, r, RollingBack, Ins(id));
    EntryIsGone(units, r, id);
    ResolveOk(rowNum, delmark, free, units, a, r, delmark, free + {id}, WithoutEntry(units, r, id));
  }

  lemma CommitDeleteOk(rowNum: nat, delmark: set<nat>, free: set<nat>, units: map<nat, UnitData>, a: Spec, r: nat,
      id: nat)
    requires TableOk(rowNum, delmark, free, units, a) && Resolving(a, r, Committing, Del(id))
    ensures r in units && id in units[r].records && units[r].records[id].delete != NEVER
    ensures TableOk(rowNum, delmark + {id}, free, WithoutEntry(units, r, id), Next(a, Resolve(r)))
    ensures units[r].records[id].insert != 0 ==> delmark + {id} == delmark
  {
    HandlerFinds(rowNum, delmark, free, units, a, r, Committing, Del(id));
    EntryIsGone(units, r, id);
    ResolveOk(rowNum, delmark, free, units, a, r, delmark + {id}, free, WithoutEntry(units, r, id));
  }

  lemma RollbackDeleteOk(rowNum: nat, delmark: set<nat>, free: set<nat>, units: map<nat, UnitData>, a: Spec, r: nat,
      id: nat)
    requires TableOk(rowNum, delmark, free, units, a) && Resolving(a, r, RollingBack, Del(id))
    ensures r in units && id in units[r].records
    ensures if units[r].records[id].insert == 0
      then TableOk(rowNum, delmark, free, WithoutEntry(units, r, id), Next(a, Resolve(r)))
      else TableOk(rowNum, delmark, free, units, Next(a, Resolve(r)))
  {
    HandlerFinds(rowNum, delmark, free, units, a, r, RollingBack, Del(id));
    EntryIsGone(units, r, id);
    if units[r].records[id].insert == 0 {
      ResolveOk(rowNum, delmark, free, units, a, r, delmark, free, WithoutEntry(units, r, id));
    } else {
      ResolveOk(rowNum, delmark, free, units, a, r, delmark, free, units);
    }
  }

  function Opened(units: map<nat, UnitData>, r: nat): map<nat, UnitData> {
    units[r := DataOf(units, r).(iterNum := DataOf(units, r).iterNum + 1)]
  }

  lemma OpenOk(rowNum: nat, delmark: set<nat>, free: set<nat>, units: map<nat, UnitData>, a: Spec, r: nat)
    requires TableOk(rowNum, delmark, free, units, a)
    ensures TableOk(rowNum, delmark, free, Opened(units, r), Next(a, OpenIter(r)))
  {
    assert UnitOk(DataOf(units, r), WorkOf(a, r));
    QuietOk(rowNum, delmark, free, units, a, OpenIter(r), Opened(units, r));
  }

  class ThreadSafeTable {
    var rowNum: nat
    var delmark: set<nat>
    var free: set<nat>
    var units: map<nat, UnitData>
    ghost var spec: Spec

    ghost predicate Valid()
      reads this
    {
      TableOk(rowNum, delmark, free, units, spec)
    }

    ghost predicate Written(id: nat)
      reads this
    {
      WrittenOk(rowNum, delmark, free, units, spec, id)
    }

    constructor ()
      ensures Valid() && spec == START && units == map[] && rowNum == 0
    {
      rowNum, delmark, free, units, spec := 0, {}, {}, map[], START;
    }

    method GetRecoveryUnitData(r: nat)
      modifies this`units
      ensures r in units && units == old(units)[r := DataOf(old(units), r)] && (r in old(units) ==> units == old(units))
    {
      if r !in units {
        units := units[r := NEW_UNIT];
      }
    }

    method RemoveRegisterEntry(r: nat, id: nat)
      requires r in units && id in units[r].records
      modifies this`units
      ensures units == WithoutEntry(old(units), r, id) && EntryGone(old(units), units, r, id)
      ensures ClocksKept(old(units), units)
    {
      var u := units[r];
      EntryIsGone(units, r, id);
      if |u.records| == 1 && u.iterNum == 0 {
        units := units - {r};
      } else {
        units := units[r := Dropped(u, id)];
      }
    }

    /** A new row is written.  It has no mark and no record, so that for now every unit is shown it. */
    method WriteRow(id: nat)
      requires id <= rowNum
      modifies this`rowNum, this`delmark, this`free
      ensures rowNum == if id == old(rowNum) then id + 1 else old(rowNum)
      ensures delmark == old(delmark) - {id} && free == old(free) - {id}
      ensures old(Valid() && Fresh(spec, id)) ==> Written(id)
      ensures old(Valid() && Fresh(spec, id)) ==> forall r: nat, x: nat ::
        Shown(rowNum, delmark, units, r, x) <==> x == id || Shown(old(rowNum), old(delmark), units, r, x)
    {
      if Valid() && Fresh(spec, id) {
        WriteOk(rowNum, delmark, free, units, spec, id);
        FreshRow(rowNum, delmark, units, spec, id);
      }
      if id == rowNum { rowNum := rowNum + 1; }
      free := free - {id};
      delmark := delmark - {id};
    }

    /** From here on the row counts as inserted by `r`, and the table follows the specification unless the clock
        stands at zero. */
    method RegisterInsert(r: nat, id: nat)
      modifies this`delmark, this`units, this`spec
      ensures delmark == old(delmark) + {id} && units == old(units)[r := Inserted(DataOf(old(units), r), id)]
      ensures spec == Next(old(spec), Insert(r, id))
      ensures old(Written(id) && WorkOf(spec, r).phase == Open) ==>
        (Valid() <==> ClockReady(DataOf(old(units), r), Insert(r, id)))
    {
      if Written(id) && WorkOf(spec, r).phase == Open {
        InsertOk(rowNum, delmark, free, units, spec, r, id);
      }
      delmark := delmark + {id};
      ghost var before := units;
      GetRecoveryUnitData(r);
      units := units[r := Inserted(units[r], id)];
      assert units == before[r := Inserted(DataOf(before, r), id)];
      spec := Next(spec, Insert(r, id));
    }

    /** The record store's insertion: the row is written, then registered. */
    method InsertRecord(r: nat, id: nat)
      requires id <= rowNum
      modifies this
      ensures spec == Next(old(spec), Insert(r, id)) && units == old(units)[r := Inserted(DataOf(old(units), r), id)]
      ensures rowNum == if id == old(rowNum) then id + 1 else old(rowNum)
      ensures old(Valid() && Enabled(spec, Insert(r, id))) ==>
        (Valid() <==> ClockReady(DataOf(old(units), r), Insert(r, id)))
    {
      WriteRow(id);
      RegisterInsert(r, id);
    }

    /** Hides the row from `r`, and follows the specification, unless the clock stands at the time that means
        "not deleted". */
    method RegisterDelete(r: nat, id: nat)
      modifies this`units, this`spec
      ensures units == old(units)[r := Deleted(DataOf(old(units), r), id)] && spec == Next(old(spec), Delete(r, id))
      ensures old(Valid() && Enabled(spec, Delete(r, id))) ==>
        (Valid() <==> ClockReady(DataOf(old(units), r), Delete(r, id)))
      ensures Shown(rowNum, delmark, units, r, id) <==> DataOf(old(units), r).clock == NEVER
    {
      if Valid() && Enabled(spec, Delete(r, id)) {
        DeleteOk(rowNum, delmark, free, units, spec, r, id);
      }
      ghost var before := units;
      GetRecoveryUnitData(r);
      units := units[r := Deleted(units[r], id)];
      assert units == before[r := Deleted(DataOf(before, r), id)];
      spec := Next(spec, Delete(r, id));
    }

    /** Looks for the record of row `id`. */
    method FindEntry(r: nat, id: nat) returns (ok: bool, t: Times)
      modifies this`units
      ensures ok <==> id in DataOf(old(units), r).records
      ensures ok ==> r in old(units) && units == old(units) && t == units[r].records[id]
      ensures units == old(units)[r := DataOf(old(units), r)] && ClocksKept(old(units), units)
    {
      GetRecoveryUnitData(r);
      ok, t := id in units[r].records, TimesOf(units[r], id);
    }

    // The four handlers of a change.  A result of false is a failed check, after which the source stops.

    method CommitInsert(r: nat, id: nat) returns (ok: bool)
      modifies this`delmark, this`units, this`spec
      ensures spec == Next(old(spec), Resolve(r)) && ClocksKept(old(units), units)
      ensures ok <==> id in DataOf(old(units), r).records
      ensures ok ==>
        var done := DataOf(old(units), r).records[id].delete == NEVER;
        && delmark == (if done then old(delmark) - {id} else old(delmark))
        && DataOf(units, r).records == DataOf(old(units), r).records - (if done then {id} else {})
      ensures old(Valid() && Resolving(spec, r, Committing, Ins(id))) ==> ok && Valid()
    {
      if Valid() && Resolving(spec, r, Committing, Ins(id)) {
        CommitInsertOk(rowNum, delmark, free, units, spec, r, id);
      }
      var t;
      ok, t := FindEntry(r, id);
      if ok && t.delete == NEVER {
        delmark := delmark - {id};
        RemoveRegisterEntry(r, id);
      } // else it is settled by CommitDelete
      spec := Next(spec, Resolve(r));
    }

    method RollbackInsert(r: nat, id: nat) returns (ok: bool)
      modifies this`free, this`units, this`spec
      ensures spec == Next(old(spec), Resolve(r)) && ClocksKept(old(units), units)
      ensures ok <==> id in DataOf(old(units), r).records
      ensures ok ==> free == old(free) + {id} && DataOf(units, r).records == DataOf(old(units), r).records - {id}
      ensures old(Valid() && Resolving(spec, r, RollingBack, Ins(id))) ==> ok && Valid()
    {
      if Valid() && Resolving(spec, r, RollingBack, Ins(id)) {
        RollbackInsertOk(rowNum, delmark, free, units, spec, r, id);
      }
      var t;
      ok, t := FindEntry(r, id);
      if ok {
        free := free + {id};
        RemoveRegisterEntry(r, id);
      }
      spec := Next(spec, Resolve(r));
    }

    method CommitDelete(r: nat, id: nat) returns (ok: bool)
      modifies this`delmark, this`units, this`spec
      ensures spec == Next(old(spec), Resolve(r)) && ClocksKept(old(units), units)
      ensures ok <==>
        id in DataOf(old(units), r).records && DataOf(old(units), r).records[id].delete != NEVER
      ensures ok ==>
        && DataOf(units, r).records == DataOf(old(units), r).records - {id}
        && delmark == old(delmark) + (if DataOf(old(units), r).records[id].insert == 0 then {id} else {})
      ensures old(Valid() && Resolving(spec, r, Committing, Del(id))) ==> ok && Valid()
    {
      if Valid() && Resolving(spec, r, Committing, Del(id)) {
        CommitDeleteOk(rowNum, delmark, free, units, spec, r, id);
      }
      var t;
      ok, t := FindEntry(r, id);
      ok := ok && t.delete != NEVER;
      if ok {
        if t.insert == 0 {
          delmark := delmark + {id};
        }
        RemoveRegisterEntry(r, id);
      }
      spec := Next(spec, Resolve(r));
    }

    method RollbackDelete(r: nat, id: nat) returns (ok: bool)
      modifies this`units, this`spec
      ensures spec == Next(old(spec), Resolve(r)) && ClocksKept(old(units), units)
      ensures ok <==> id in DataOf(old(units), r).records
      ensures ok ==>
        var done := DataOf(old(units), r).records[id].insert == 0;
        DataOf(units, r).records == DataOf(old(units), r).records - (if done then {id} else {})
      ensures old(Valid() && Resolving(spec, r, RollingBack, Del(id))) ==> ok && Valid()
    {
      if Valid() && Resolving(spec, r, RollingBack, Del(id)) {
        RollbackDeleteOk(rowNum, delmark, free, units, spec, r, id);
      }
      var t;
      ok, t := FindEntry(r, id);
      if ok && t.insert == 0 {
        RemoveRegisterEntry(r, id);
      } // else it is settled by RollbackInsert
      spec := Next(spec, Resolve(r));
    }

    /** The table's share of an iterator of `r` being created. */
    method OpenIterator(r: nat)
      requires Valid()
      modifies this`units, this`spec
      ensures Valid() && spec == Next(old(spec), OpenIter(r)) && ClocksKept(old(units), units)
      ensures units == Opened(old(units), r)
    {
      OpenOk(rowNum, delmark, free, units, spec, r);
      ghost var before := units;
      GetRecoveryUnitData(r);
      units := units[r := units[r].(iterNum := units[r].iterNum + 1)];
      assert units == Opened(before, r);
      spec := Next(spec, OpenIter(r));
    }

    /** The table's share of an iterator of `r` being destroyed. */
    method CloseIterator(r: nat)
      requires Valid() && Enabled(spec, CloseIter(r))
      modifies this`units, this`spec
      ensures Valid() && spec == Next(old(spec), CloseIter(r)) && ClocksKept(old(units), units)
    {
      CloseOk(rowNum, delmark, free, units, spec, r);
      units := units[r := units[r].(iterNum := units[r].iterNum - 1)];
      if units[r].iterNum == 0 && |units[r].records| == 0 {
        units := units - {r};
      }
      spec := Next(spec, CloseIter(r));
    }

    /** The recovery unit turns to committing or rolling back, or begins anew; the table does not notice. */
    ghost method Unnoticed(e: Event)
      requires e.Commit? || e.Rollback? || e.Begin? || e.Look?
      modifies this`spec
      ensures spec == Next(old(spec), e)
      ensures old(Valid() && Enabled(spec, e)) ==> Valid()
    {
      if Valid() && Enabled(spec, e) {
        assert UnitOk(DataOf(units, e.unit), WorkOf(spec, e.unit));
        QuietOk(rowNum, delmark, free, units, spec, e, units);
      }
      spec := Next(spec, e);
    }

    /** Whether an iterator of `r` is given row `id`. */
    method GetVal(r: nat, id: nat) returns (shown: bool)
      requires r in units
      ensures shown <==> Shown(rowNum, delmark, units, r, id)
      ensures Valid() ==> (shown <==> Sees(spec, r, id))
    {
      if Valid() {
        SeesRecord(rowNum, delmark, units, spec, r, id);
      }
      if id in units[r].records {
        return units[r].records[id].delete == NEVER;
      }
      return id < rowNum && id !in delmark;
    }

    /** A unit with an open iterator has its data. */
    lemma Kept(r: nat)
      requires Valid() && WorkOf(spec, r).iters > 0
      ensures r in units
    {
      assert UnitOk(DataOf(units, r), WorkOf(spec, r));
    }
  }

  lemma OneLess(m: map<nat, Times>, id: nat)
    requires id in m
    ensures |m - {id}| == |m| - 1
    ensures |m| == 1 ==> m - {id} == map[]
  {
    assert (m - {id}).Keys == m.Keys - {id};
  }
}
