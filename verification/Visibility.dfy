/** What transactions promise about rows, with no delete marks, times or per-unit records.

    A recovery unit registers inserts and deletes of rows and later resolves them one by one, in
    registration order to commit and in reverse to roll back.  Steps of different units interleave
    freely, also between the resolutions of one unit. */
module Visibility {

  datatype Change = Ins(id: nat) | Del(id: nat)

  datatype Phase = Open | Committing | RollingBack

  /** All changes of the current transaction of a unit, how many of them are resolved, and its open iterators. */
  datatype Work = Work(phase: Phase, all: seq<Change>, done: nat, iters: nat)

  datatype Spec = Spec(rows: nat, committed: set<nat>, units: map<nat, Work>)

  const START: Spec := Spec(0, {}, map[])

  function WorkOf(a: Spec, r: nat): Work {
    if r in a.units then a.units[r] else Work(Open, [], 0, 0)
  }

  function Unresolved(w: Work): seq<Change> {
    if w.done > |w.all| then []
    else if w.phase.RollingBack? then w.all[..|w.all| - w.done] else w.all[w.done..]
  }

  predicate Mentions(s: seq<Change>, id: nat) { Ins(id) in s || Del(id) in s }

  /** What unit `r` is to be shown: its own pending inserts unless it deletes them, nothing it is about to
      delete, and otherwise the committed rows. */
  predicate Sees(a: Spec, r: nat, id: nat) {
    var w := WorkOf(a, r);
    if Ins(id) in Unresolved(w) then Del(id) !in w.all
    else if Del(id) in Unresolved(w) then false
    else id in a.committed
  }

  // ---- Events.

  datatype Event =
    | Insert(unit: nat, id: nat)
    | Delete(unit: nat, id: nat)
    | Commit(unit: nat)
    | Rollback(unit: nat)
    | Resolve(unit: nat)
    | Begin(unit: nat)
    | OpenIter(unit: nat)
    | CloseIter(unit: nat)
    | Look(unit: nat, id: nat)

  ghost predicate Fresh(a: Spec, id: nat) {
    id !in a.committed && forall r :: !Mentions(Unresolved(WorkOf(a, r)), id)
  }

  /** What the surroundings guarantee: new rows get unused numbers, only visible rows are deleted, and changes
      are registered only while none is being resolved. */
  ghost predicate Enabled(a: Spec, e: Event) {
    var w := WorkOf(a, e.unit);
    match e
    case Insert(_, id) => w.phase == Open && Fresh(a, id) && id <= a.rows
    case Delete(_, id) => w.phase == Open && Sees(a, e.unit, id)
    case Commit(_) => w.phase == Open
    case Rollback(_) => w.phase == Open
    case Resolve(_) => w.phase != Open && w.done < |w.all|
    case Begin(_) => w.phase != Open && w.done == |w.all|
    case OpenIter(_) => true
    case CloseIter(_) => w.iters > 0
    case Look(_, _) => w.iters > 0
  }

  /** The change that is resolved next. */
  function Current(w: Work): Change
    requires w.done < |w.all|
  {
    if w.phase.RollingBack? then w.all[|w.all| - 1 - w.done] else w.all[w.done]
  }

  /** The committed rows after the next resolution. */
  function Published(committed: set<nat>, w: Work): set<nat>
    requires w.done < |w.all|
  {
    if w.phase.RollingBack? then committed else
      match Current(w)
      case Ins(id) => if Del(id) in w.all then committed else committed + {id}
      case Del(id) => committed - {id}
  }

  function WorkAfter(w: Work, e: Event): Work {
    match e
    case Insert(_, id) => w.(all := w.all + [Ins(id)])
    case Delete(_, id) => w.(all := w.all + [Del(id)])
    case Commit(_) => w.(phase := Committing)
    case Rollback(_) => w.(phase := RollingBack)
    case Resolve(_) => w.(done := w.done + 1)
    case Begin(_) => Work(Open, [], 0, w.iters)
    case OpenIter(_) => w.(iters := w.iters + 1)
    case CloseIter(_) => if w.iters == 0 then w else w.(iters := w.iters - 1)
    case Look(_, _) => w
  }

  function Next(a: Spec, e: Event): Spec {
    var w := WorkOf(a, e.unit);
    Spec(
      if e.Insert? && e.id == a.rows then a.rows + 1 else a.rows,
      if e.Resolve? && w.done < |w.all| then Published(a.committed, w) else a.committed,
      a.units[e.unit := WorkAfter(w, e)])
  }

  ghost predicate Legal(a: Spec, events: seq<Event>)
    decreases |events|
  {
    events == [] || (Enabled(a, events[0]) && Legal(Next(a, events[0]), events[1..]))
  }

  ghost function Run(a: Spec, events: seq<Event>): Spec
    decreases |events|
  {
    if events == [] then a else Run(Next(a, events[0]), events[1..])
  }

  // ---- The invariant of all runs.

  ghost predicate WorkOk(w: Work) {
    && w.done <= |w.all| && (w.phase == Open ==> w.done == 0)
    && (forall i, j :: 0 <= i < j < |w.all| ==> w.all[i] != w.all[j])
    && (forall i, j :: 0 <= i < |w.all| && 0 <= j < |w.all| && w.all[i].Ins? && w.all[j] == Del(w.all[i].id) ==> i < j)
  }

  /** A row that unit `r` has inserted and is still to resolve. */
  predicate Owned(a: Spec, r: nat, id: nat) {
    Ins(id) in WorkOf(a, r).all && Mentions(Unresolved(WorkOf(a, r)), id)
  }

  ghost predicate Private(a: Spec, r: nat, id: nat) {
    id !in a.committed && forall q :: q != r ==> !Mentions(Unresolved(WorkOf(a, q)), id)
  }

  ghost predicate Inv(a: Spec) {
    && (forall r :: WorkOk(WorkOf(a, r)))
    && (forall r: nat, id: nat :: Owned(a, r, id) ==> Private(a, r, id))
    && (forall id :: id in a.committed ==> id < a.rows)
    && (forall r: nat, id: nat :: Mentions(Unresolved(WorkOf(a, r)), id) ==> id < a.rows)
  }

  // ---- One resolution.

  /** A row stays mentioned by the rest exactly if its other change is still to come. */
  predicate Lingers(w: Work, c: Change) {
    if w.phase.RollingBack? then c.Del? && Ins(c.id) in w.all else c.Ins? && Del(c.id) in w.all
  }

  /** What comes before and after a change. */
  lemma Around(w: Work, i: nat)
    requires WorkOk(w) && i < |w.all|
    ensures w.all == w.all[..i] + [w.all[i]] + w.all[i + 1..]
    ensures w.all[i] !in w.all[..i] && w.all[i] !in w.all[i + 1..]
    ensures w.all[i].Ins? ==> Del(w.all[i].id) !in w.all[..i]
    ensures w.all[i].Del? ==> Ins(w.all[i].id) !in w.all[i + 1..]
  {
  }

  lemma CommitMentions(before: seq<Change>, c: Change, after: seq<Change>, id: nat)
    requires c !in after && (c.Ins? ==> Del(c.id) !in before) && (c.Del? ==> Ins(c.id) !in after)
    ensures Mentions(after, id) <==>
      Mentions([c] + after, id) && (id == c.id ==> c.Ins? && Del(c.id) in before + [c] + after)
  {
  }

  lemma RollbackMentions(before: seq<Change>, c: Change, after: seq<Change>, id: nat)
    requires c !in before && (c.Ins? ==> Del(c.id) !in before) && (c.Del? ==> Ins(c.id) !in after)
    ensures Mentions(before, id) <==>
      Mentions(before + [c], id) && (id == c.id ==> c.Del? && Ins(c.id) in before + [c] + after)
  {
  }

  lemma ResolveMentions(w: Work, id: nat)
    requires WorkOk(w) && w.done < |w.all| && w.phase != Open
    ensures Current(w) in Unresolved(w)
    ensures Mentions(Unresolved(w.(done := w.done + 1)), id) <==>
      Mentions(Unresolved(w), id) && (id == Current(w).id ==> Lingers(w, Current(w)))
  {
    var i := if w.phase.RollingBack? then |w.all| - 1 - w.done else w.done;
    var before, c, after := w.all[..i], w.all[i], w.all[i + 1..];
    Around(w, i);
    if w.phase.RollingBack? {
      assert Unresolved(w) == before + [c];
      RollbackMentions(before, c, after, id);
    } else {
      assert Unresolved(w) == [c] + after;
      CommitMentions(before, c, after, id);
    }
  }

  // ---- Every step keeps the invariant.

  lemma OtherUnits(a: Spec, e: Event, r: nat)
    requires r != e.unit
    ensures WorkOf(Next(a, e), r) == WorkOf(a, r)
  {
  }

  /** A registration adds one mention; everything else of the unit stays. */
  lemma RegisterWork(a: Spec, e: Event)
    requires Inv(a) && Enabled(a, e) && (e.Insert? || e.Delete?)
    ensures WorkOk(WorkOf(Next(a, e), e.unit))
    ensures forall id :: Mentions(Unresolved(WorkOf(Next(a, e), e.unit)), id) <==>
      Mentions(Unresolved(WorkOf(a, e.unit)), id) || id == e.id
  {
    var w, c := WorkOf(a, e.unit), if e.Insert? then Ins(e.id) else Del(e.id);
    assert WorkOk(w) && Unresolved(w) == w.all;
    assert c !in w.all && (c.Ins? ==> Del(c.id) !in w.all) by {
      if e.Insert? {
        assert Fresh(a, e.id);
        assert !Mentions(Unresolved(w), e.id);
      }
    }
    OneMore(w, c);
  }

  lemma OneMore(w: Work, c: Change)
    requires WorkOk(w) && w.phase == Open && c !in w.all && (c.Ins? ==> Del(c.id) !in w.all)
    ensures WorkOk(w.(all := w.all + [c]))
    ensures forall id :: Mentions(Unresolved(w.(all := w.all + [c])), id) <==> Mentions(Unresolved(w), id) || id == c.id
  {
    var w' := w.(all := w.all + [c]);
    assert Unresolved(w) == w.all && Unresolved(w') == w.all + [c];
    assert forall i :: 0 <= i < |w.all| ==> w'.all[i] == w.all[i] && w.all[i] in w.all;
  }

  lemma RegisterInv(a: Spec, e: Event)
    requires Inv(a) && Enabled(a, e) && (e.Insert? || e.Delete?)
    ensures Inv(Next(a, e))
  {
    var a' := Next(a, e);
    RegisterWork(a, e);
    forall r: nat ensures WorkOk(WorkOf(a', r)) {
      if r != e.unit { OtherUnits(a, e, r); }
      assert WorkOk(WorkOf(a, r));
    }
    forall r: nat, id: nat | Mentions(Unresolved(WorkOf(a', r)), id) ensures id < a'.rows {
      if r != e.unit { OtherUnits(a, e, r); }
      if e.Delete? && id == e.id { SeenBelow(a, e.unit, id); }
    }
    forall r: nat, id: nat | Owned(a', r, id) ensures Private(a', r, id) {
      RegisterPrivate(a, e, r, id);
    }
  }

  lemma SeenBelow(a: Spec, r: nat, id: nat)
    requires Inv(a) && Sees(a, r, id)
    ensures id < a.rows
  {
    if Ins(id) in Unresolved(WorkOf(a, r)) {
      assert Mentions(Unresolved(WorkOf(a, r)), id);
    }
  }

  lemma RegisterPrivate(a: Spec, e: Event, r: nat, id: nat)
    requires Inv(a) && Enabled(a, e) && (e.Insert? || e.Delete?) && Owned(Next(a, e), r, id)
    ensures Private(Next(a, e), r, id)
  {
    var a' := Next(a, e);
    RegisterWork(a, e);
    assert WorkOk(WorkOf(a, e.unit));
    if r != e.unit {
      OtherUnits(a, e, r);
      assert Owned(a, r, id) && Private(a, r, id);
      assert Mentions(Unresolved(WorkOf(a, r)), id);
    } else if e.Delete? || id != e.id {
      assert Owned(a, r, id);
    }
    forall q | q != r ensures !Mentions(Unresolved(WorkOf(a', q)), id) {
      if q != e.unit {
        OtherUnits(a, e, q);
      }
    }
  }

  lemma ResolveKeeps(a: Spec, e: Event, r: nat, id: nat)
    requires Inv(a) && Enabled(a, e) && e.Resolve? && Mentions(Unresolved(WorkOf(Next(a, e), r)), id)
    ensures Mentions(Unresolved(WorkOf(a, r)), id)
  {
    assert WorkOk(WorkOf(a, e.unit));
    if r != e.unit { OtherUnits(a, e, r); } else { ResolveMentions(WorkOf(a, r), id); }
  }

  lemma StaysHidden(committed: set<nat>, w: Work, id: nat)
    requires w.done < |w.all| && w.phase != Open && id !in committed
    requires id == Current(w).id ==> Lingers(w, Current(w))
    ensures id !in Published(committed, w)
  {
  }

  lemma OwnedBefore(a: Spec, e: Event, r: nat, id: nat)
    requires Inv(a) && Enabled(a, e) && e.Resolve? && Owned(Next(a, e), r, id)
    ensures Owned(a, r, id) && (id == Current(WorkOf(a, e.unit)).id ==>
        Lingers(WorkOf(a, e.unit), Current(WorkOf(a, e.unit))))
  {
    var w := WorkOf(a, e.unit);
    assert WorkOk(w);
    ResolveKeeps(a, e, r, id);
    ResolveMentions(w, id);
    assert Mentions(Unresolved(w), Current(w).id);
    if r != e.unit {
      OtherUnits(a, e, r);
      assert Owned(a, r, id) && Private(a, r, id);
    }
  }

  lemma ResolvePrivate(a: Spec, e: Event, r: nat, id: nat)
    requires Inv(a) && Enabled(a, e) && e.Resolve? && Owned(Next(a, e), r, id)
    ensures Private(Next(a, e), r, id)
  {
    OwnedBefore(a, e, r, id);
    assert Private(a, r, id);
    StaysHidden(a.committed, WorkOf(a, e.unit), id);
    forall q | q != r ensures !Mentions(Unresolved(WorkOf(Next(a, e), q)), id) {
      if Mentions(Unresolved(WorkOf(Next(a, e), q)), id) { ResolveKeeps(a, e, q, id); }
    }
  }

  lemma ResolveInv(a: Spec, e: Event)
    requires Inv(a) && Enabled(a, e) && e.Resolve?
    ensures Inv(Next(a, e))
  {
    var a', w := Next(a, e), WorkOf(a, e.unit);
    forall r: nat ensures WorkOk(WorkOf(a', r)) {
      if r != e.unit { OtherUnits(a, e, r); }
      assert WorkOk(WorkOf(a, r));
    }
    forall r: nat, id: nat | Mentions(Unresolved(WorkOf(a', r)), id) ensures id < a.rows {
      ResolveKeeps(a, e, r, id);
    }
    ResolveMentions(w, Current(w).id);
    assert Mentions(Unresolved(w), Current(w).id);
    forall r: nat, id: nat | Owned(a', r, id) ensures Private(a', r, id) {
      ResolvePrivate(a, e, r, id);
    }
  }

  /** The other events change neither what is committed nor what is mentioned. */
  lemma QuietInv(a: Spec, e: Event)
    requires Inv(a) && Enabled(a, e) && !e.Insert? && !e.Delete? && !e.Resolve?
    ensures Inv(Next(a, e)) && forall r :: Unresolved(WorkOf(Next(a, e), r)) == Unresolved(WorkOf(a, r))
  {
    var a' := Next(a, e);
    assert WorkOk(WorkOf(a, e.unit));
    forall r: nat ensures WorkOk(WorkOf(a', r)) && Unresolved(WorkOf(a', r)) == Unresolved(WorkOf(a, r)) {
      if r != e.unit { OtherUnits(a, e, r); }
      assert WorkOk(WorkOf(a, r));
    }
    forall r: nat, id: nat | Owned(a', r, id) ensures Private(a', r, id) {
      if r != e.unit { OtherUnits(a, e, r); }
      assert Mentions(Unresolved(WorkOf(a, r)), id);
      assert Owned(a, r, id);
    }
  }

  lemma StepInv(a: Spec, e: Event)
    requires Inv(a) && Enabled(a, e)
    ensures Inv(Next(a, e))
  {
    if e.Insert? || e.Delete? {
      RegisterInv(a, e);
    } else if e.Resolve? {
      ResolveInv(a, e);
    } else {
      QuietInv(a, e);
    }
  }

  lemma {:induction false} RunInv(a: Spec, events: seq<Event>)
    requires Inv(a) && Legal(a, events)
    ensures Inv(Run(a, events))
    decreases |events|
  {
    if events == [] {
    } else {
      StepInv(a, events[0]);
      RunInv(Next(a, events[0]), events[1..]);
    }
  }

  // ---- Isolation.

  /** In every reachable state no unit is shown what another has inserted and not yet committed. */
  lemma NoDirtyReads(events: seq<Event>, q: nat, r: nat, id: nat)
    requires Legal(START, events) && q != r && Ins(id) in Unresolved(WorkOf(Run(START, events), q))
    ensures !Sees(Run(START, events), r, id)
  {
    RunInv(START, events);
    var a := Run(START, events);
    var s := Unresolved(WorkOf(a, q));
    assert WorkOk(WorkOf(a, q));
    assert Mentions(s, id) && Ins(id) in WorkOf(a, q).all;
    assert Owned(a, q, id) && Private(a, q, id);
    assert !Mentions(Unresolved(WorkOf(a, r)), id);
  }

  /** A registration shows at once to its own unit. */
  lemma ReadYourWrites(a: Spec, e: Event)
    requires Inv(a) && Enabled(a, e) && (e.Insert? || e.Delete?)
    ensures Sees(Next(a, e), e.unit, e.id) <==> e.Insert?
    ensures forall x :: x != e.id ==> (Sees(Next(a, e), e.unit, x) <==> Sees(a, e.unit, x))
  {
    var w, w' := WorkOf(a, e.unit), WorkOf(Next(a, e), e.unit);
    assert WorkOk(w) && Unresolved(w) == w.all && Unresolved(w') == w'.all;
    if e.Insert? {
      assert Fresh(a, e.id);
      assert !Mentions(Unresolved(w), e.id);
      assert w'.all[|w.all|] == Ins(e.id);
    } else {
      assert w'.all[|w.all|] == Del(e.id);
    }
  }

  /** No step of one unit changes what another is shown, except the commit of a change to that very row. */
  lemma Unnoticed(a: Spec, e: Event, r: nat, x: nat)
    requires Inv(a) && Enabled(a, e) && r != e.unit
    requires e.Resolve? && WorkOf(a, e.unit).phase == Committing ==> Current(WorkOf(a, e.unit)).id != x
    ensures Sees(Next(a, e), r, x) <==> Sees(a, r, x)
  {
    OtherUnits(a, e, r);
  }

  // ---- The effect of a whole transaction.

  /** No other unit commits a change of row `id` along the way. */
  ghost predicate LeavesAlone(a: Spec, events: seq<Event>, r: nat, id: nat)
    decreases |events|
  {
    events == [] ||
    var e := events[0];
    var w := WorkOf(a, e.unit);
    && (e.Resolve? && e.unit != r && w.phase == Committing && w.done < |w.all| ==> Current(w).id != id)
    && LeavesAlone(Next(a, e), events[1..], r, id)
  }

  /** Whether `id` is committed after the first `n` changes, if it was before iff `was`. */
  predicate Settled(all: seq<Change>, n: nat, was: bool, id: nat)
    requires n <= |all|
  {
    (was || (Ins(id) in all[..n] && Del(id) !in all)) && Del(id) !in all[..n]
  }

  lemma SettleStep(w: Work, was: bool, committed: set<nat>, id: nat)
    requires WorkOk(w) && w.phase == Committing && w.done < |w.all|
    requires id in committed <==> Settled(w.all, w.done, was, id)
    ensures id in Published(committed, w) <==> Settled(w.all, w.done + 1, was, id)
  {
    var c := w.all[w.done];
    assert w.all[..w.done + 1] == w.all[..w.done] + [c];
    Around(w, w.done);
  }

  /** One step, while unit `r` is resolving. */
  lemma StepWhileResolving(a: Spec, e: Event, r: nat, was: bool, id: nat)
    requires Inv(a) && Enabled(a, e) && e != Begin(r) && WorkOf(a, r).phase != Open && LeavesAlone(a, [e], r, id)
    requires WorkOf(a, r).phase == Committing ==>
        (id in a.committed <==> Settled(WorkOf(a, r).all, WorkOf(a, r).done, was, id))
    requires WorkOf(a, r).phase == RollingBack ==> (id in a.committed <==> was)
    ensures WorkOf(Next(a, e), r).phase == WorkOf(a, r).phase && WorkOf(Next(a, e), r).all == WorkOf(a, r).all
    ensures WorkOf(Next(a, e), r).done <= |WorkOf(a, r).all|
    ensures WorkOf(a, r).phase == Committing ==>
        (id in Next(a, e).committed <==> Settled(WorkOf(a, r).all, WorkOf(Next(a, e), r).done, was, id))
    ensures WorkOf(a, r).phase == RollingBack ==> (id in Next(a, e).committed <==> was)
  {
    var w := WorkOf(a, r);
    assert WorkOk(w) && WorkOk(WorkOf(a, e.unit));
    if e.unit != r {
      OtherUnits(a, e, r);
    } else if e.Resolve? && w.phase == Committing {
      SettleStep(w, was, a.committed, id);
    }
  }

  /** From any point of the resolution of unit `r` on, in any interleaving with other units. */
  lemma {:induction false} RunWhileResolving(a: Spec, events: seq<Event>, r: nat, was: bool, id: nat)
    requires Inv(a) && Legal(a, events) && Begin(r) !in events && WorkOf(a, r).phase != Open &&
        LeavesAlone(a, events, r, id)
    requires WorkOf(a, r).phase == Committing ==>
        (id in a.committed <==> Settled(WorkOf(a, r).all, WorkOf(a, r).done, was, id))
    requires WorkOf(a, r).phase == RollingBack ==> (id in a.committed <==> was)
    ensures WorkOf(Run(a, events), r).phase == WorkOf(a, r).phase && WorkOf(Run(a, events), r).all == WorkOf(a, r).all
    ensures WorkOf(Run(a, events), r).done <= |WorkOf(a, r).all|
    ensures WorkOf(a, r).phase == Committing ==>
        (id in Run(a, events).committed <==> Settled(WorkOf(a, r).all, WorkOf(Run(a, events), r).done, was, id))
    ensures WorkOf(a, r).phase == RollingBack ==> (id in Run(a, events).committed <==> was)
    decreases |events|
  {
    assert WorkOk(WorkOf(a, r));
    if events == [] {
    } else {
      var e := events[0];
      assert LeavesAlone(Next(a, e), [], r, id);
      StepWhileResolving(a, e, r, was, id);
      StepInv(a, e);
      RunWhileResolving(Next(a, e), events[1..], r, was, id);
    }
  }

  /** Once all changes of a committing unit are resolved, in whatever interleaving, the committed rows are the old
      ones and the inserted ones without the deleted ones, up to rows that other units have committed changes of. */
  lemma AtomicCommit(a: Spec, events: seq<Event>, r: nat, id: nat)
    requires Inv(a) && Enabled(a, Commit(r)) && Legal(Next(a, Commit(r)), events) && Begin(r) !in events
    requires LeavesAlone(Next(a, Commit(r)), events, r, id)
    requires WorkOf(Run(Next(a, Commit(r)), events), r).done == |WorkOf(a, r).all|
    ensures id in Run(Next(a, Commit(r)), events).committed <==>
      (id in a.committed || Ins(id) in WorkOf(a, r).all) && Del(id) !in WorkOf(a, r).all
  {
    var b, w := Next(a, Commit(r)), WorkOf(a, r);
    assert WorkOk(w);
    StepInv(a, Commit(r));
    assert w.all[..0] == [];
    RunWhileResolving(b, events, r, id in a.committed, id);
    assert w.all[..|w.all|] == w.all;
  }

  /** A unit that rolls back leaves no trace in the committed rows. */
  lemma AtomicRollback(a: Spec, events: seq<Event>, r: nat, id: nat)
    requires Inv(a) && Enabled(a, Rollback(r)) && Legal(Next(a, Rollback(r)), events) && Begin(r) !in events
    requires LeavesAlone(Next(a, Rollback(r)), events, r, id)
    ensures id in Run(Next(a, Rollback(r)), events).committed <==> id in a.committed
  {
    StepInv(a, Rollback(r));
    RunWhileResolving(Next(a, Rollback(r)), events, r, id in a.committed, id);
  }
}
