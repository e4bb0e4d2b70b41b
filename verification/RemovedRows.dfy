/** What the flush does to the row of a job that has left the table.

    A removed job's row is written again if and only if a copy of the job is in the flush list, or is to come from an
    entry the drain had loaded before the job was removed. */
module RemovedRows {
  import opened Basics
  import opened WriteBehind

  // The entry was loaded, and it is claimed, flagged, or about to be flagged.
  ghost predicate InHand(s: Sys, id: int) {
    id in s.grips && (s.grips[id].claimed || Flagged(s, id) || Pending(s, id))
  }

  ghost predicate Pending(s: Sys, id: int)
    requires id in s.grips
  {
    s.grips[id].place.Detached? && s.grips[id].place.pending
  }

  ghost predicate ToBeSaved(s: Sys, id: int) {
    IsHeld(s, id) || InHand(s, id)
  }

  // This copy is in the flush list.
  ghost predicate Listed(s: Sys, id: int, c: Copy) {
    exists i :: 0 <= i < |s.held| && HeldAt(s, i, id) && s.held[i] == c
  }

  // Or a loaded entry out of the table, claimed or flagged, holds it.
  ghost predicate Coming(s: Sys, id: int, c: Copy) {
    || Listed(s, id, c)
    || (id in s.grips && (s.grips[id].claimed || Flagged(s, id)) && Carries(s, id, c))
  }

  ghost predicate Carries(s: Sys, id: int, c: Copy)
    requires id in s.grips
  {
    s.grips[id].place.Detached? && c == Copy(s.grips[id].place.job, s.grips[id].place.at)
  }

  /** The copy of a removed job that is in the flush list, or is to come into it. */
  ghost predicate CopyDue(s: Sys, id: int, c: Copy) {
    Listed(s, id, c) || (InHand(s, id) && Carries(s, id, c))
  }

  /** There is one, and only one, exactly if the job is to be saved. */
  lemma OneCopyDue(s: Sys, id: int)
    requires Safe(s) && id !in s.store.jobs
    ensures ToBeSaved(s, id) <==> exists c :: CopyDue(s, id, c)
    ensures forall c, d :: CopyDue(s, id, c) && CopyDue(s, id, d) ==> c == d
  {
    assert id in s.grips ==> GoodGrip(s, id);
    if i :| 0 <= i < |s.held| && HeldAt(s, i, id) {
      assert GoodCopy(s, i) && CopyDue(s, id, s.held[i]);
    } else if InHand(s, id) {
      assert CopyDue(s, id, Copy(s.grips[id].place.job, s.grips[id].place.at));
    }
  }

  lemma UnsavedStays(s: Sys, e: Event, id: int)
    requires Safe(s) && Enabled(s, e) && id !in s.store.jobs && !ToBeSaved(s, id) && !(e.Put? && e.job.id == id)
    ensures var t := Next(s, e);
            && id !in t.store.jobs && !ToBeSaved(t, id)
            && (id in t.db ==> id in s.db && t.db[id] == s.db[id])
            && (e != Erase(id) && id in s.db ==> id in t.db)
  {
    UnsavedIsNotHeld(s, e, id);
    assert id in s.grips ==> GoodGrip(s, id);
    match e
    case Put(job) => LeavingSparesOthers(s, job.id);
    case Delete(k) => LeavingSparesOthers(s, k);
    case _ =>
  }

  lemma UnsavedIsNotHeld(s: Sys, e: Event, id: int)
    requires Safe(s) && Enabled(s, e) && id !in s.store.jobs && !ToBeSaved(s, id)
    ensures !IsHeld(Next(s, e), id) && (s.held != [] ==> s.held[0].job.id != id)
  {
    var t := Next(s, e);
    assert s.held != [] && s.held[0].job.id == id ==> HeldAt(s, 0, id);
    if e.Take? {
      TakenCopyIsGood(s, e.id);
      TakeHolds(s, e.id, id);
    } else if e.Save? || e.Fail? {
      assert forall i :: 0 <= i < |t.held| && HeldAt(t, i, id) ==> HeldAt(s, i + 1, id);
    } else {
      SameHeld(s, t, id);
    }
  }

  ghost predicate NotAddedAgain(es: seq<Event>, id: int) {
    forall e :: e in es ==> !(e.Put? && e.job.id == id)
  }

  /** A removed job's row is left alone, in every run that does not add the job again, unless the job is to be saved:
      it stays as it is, or deleted once someone has deleted it. */
  lemma {:induction false} RemovedRowStays(s: Sys, es: seq<Event>, id: int)
    requires Safe(s) && ValidRun(s, es) && NotAddedAgain(es, id) && id !in s.store.jobs && !ToBeSaved(s, id)
    ensures var t := Run(s, es);
            && id !in t.store.jobs && (id in t.db ==> id in s.db && t.db[id] == s.db[id])
            && (id in s.db && (forall e :: e in es ==> e != Erase(id)) ==> id in t.db)
    decreases |es|
  {
    if es != [] {
      NextSafe(s, es[0]);
      assert es[0] in es && forall e :: e in es[1..] ==> e in es;
      UnsavedStays(s, es[0], id);
      RemovedRowStays(Next(s, es[0]), es[1..], id);
    }
  }

  // What the flush loop and its environment do to finish a flush.
  predicate Flushes(e: Event) {
    Drains(e) || e.Save? || e.LateFlag? || e.Remark?
  }

  // The flush list has been saved, and the row is this copy.
  ghost predicate SavedAs(t: Sys, id: int, c: Copy) {
    && t.phase == Saving && t.held == [] && id !in t.store.jobs
    && id in t.db && t.db[id] == c.job && id in t.rowAt && t.rowAt[id] == c.at
  }

  /** Otherwise the flush that is under way can be completed, wherever it stands, and then the row is the copy that was
      due: it has been written (again), over whatever the row was, or although there was none. */
  lemma RemovedRowReturns(s: Sys, id: int, c: Copy) returns (es: seq<Event>)
    requires Safe(s) && id !in s.store.jobs && CopyDue(s, id, c)
    ensures ValidRun(s, es) && forall e :: e in es ==> Flushes(e)
    ensures SavedAs(Run(s, es), id, c)
  {
    if s.failed.Some? {
      var t := Next(s, Remark);
      NextSafe(s, Remark);
      assert Listed(t, id, c) by {
        var i :| 0 <= i < |s.held| && HeldAt(s, i, id) && s.held[i] == c;
        assert HeldAt(t, i, id);
      }
      var rest := ComingIsSaved(t, id, c);
      RunCons(s, Remark, rest);
      es := [Remark] + rest;
    } else if !Coming(s, id, c) {
      var t := Next(s, LateFlag(id));
      NextSafe(s, LateFlag(id));
      var rest := ComingIsSaved(t, id, c);
      RunCons(s, LateFlag(id), rest);
      es := [LateFlag(id)] + rest;
    } else {
      es := ComingIsSaved(s, id, c);
    }
  }

  /** The row of a removed job, once deleted, comes back in some run if and only if the job is to be saved. */
  lemma RemovedRowExactly(s: Sys, id: int)
    requires Safe(s) && id !in s.store.jobs && id !in s.db
    ensures (exists es :: ValidRun(s, es) && NotAddedAgain(es, id) && id in Run(s, es).db) <==> ToBeSaved(s, id)
  {
    if ToBeSaved(s, id) {
      OneCopyDue(s, id);
      var c :| CopyDue(s, id, c);
      var es := RemovedRowReturns(s, id, c);
      assert NotAddedAgain(es, id);
    } else {
      forall es | ValidRun(s, es) && NotAddedAgain(es, id) ensures id !in Run(s, es).db {
        RemovedRowStays(s, es, id);
      }
    }
  }

  lemma ComingIsSaved(s: Sys, id: int, c: Copy) returns (es: seq<Event>)
    requires Safe(s) && s.failed.None? && id !in s.store.jobs && Coming(s, id, c)
    ensures ValidRun(s, es) && forall e :: e in es ==> Drains(e) || e.Save?
    ensures SavedAs(Run(s, es), id, c)
  {
    if s.phase == Draining {
      var drain := DrainOut(s, id, c);
      var save := SaveAll(Run(s, drain), id, c);
      RunAppend(s, drain, save);
      es := drain + save;
    } else {
      es := SaveAll(s, id, c);
    }
  }

  lemma {:induction false} RunAppend(s: Sys, es: seq<Event>, more: seq<Event>)
    requires ValidRun(s, es) && ValidRun(Run(s, es), more)
    ensures ValidRun(s, es + more) && Run(s, es + more) == Run(Run(s, es), more)
    decreases |es|
  {
    if es == [] {
      assert es + more == more;
    } else {
      assert (es + more)[1..] == es[1..] + more;
      RunAppend(Next(s, es[0]), es[1..], more);
    }
  }

  lemma ComingStays(s: Sys, e: Event, id: int, c: Copy)
    requires Safe(s) && Enabled(s, e) && Drains(e) && id !in s.store.jobs && Coming(s, id, c)
    ensures Coming(Next(s, e), id, c)
  {
    var t := Next(s, e);
    assert id in s.grips ==> GoodGrip(s, id);
    if i :| 0 <= i < |s.held| && HeldAt(s, i, id) && s.held[i] == c {
      assert HeldAt(t, i, id) && t.held[i] == c;
    } else if e == Take(id) {
      TakenCopyIsGood(s, id);
      assert HeldAt(t, |s.held|, id) && t.held[|s.held|] == c;
    }
  }

  // The drain never gets stuck, and each of its steps brings its end nearer.
  lemma DrainMoves(s: Sys) returns (e: Event)
    requires Safe(s) && s.phase == Draining
    ensures Enabled(s, e) && Drains(e) && (e.EndDrain? || StepsLeft(Next(s, e)) < StepsLeft(s))
  {
    EmptyOrNot(s.grips.Keys);
    EmptyOrNot(s.due - s.visited);
    if k :| k in s.grips && s.grips[k].claimed {
      e := Take(k);
      TakeMoves(s, k);
    } else if k :| k in s.grips.Keys {
      e := Claim(k);
      ClaimMoves(s, k);
    } else if k :| k in s.due - s.visited {
      e := Load(k);
      LoadMoves(s, k);
    } else {
      assert forall k :: k in s.due ==> k in s.visited || k in s.due - s.visited;
      assert s.grips.Keys == {};
      e := EndDrain;
    }
  }

  lemma TakeMoves(s: Sys, k: int)
    requires Safe(s) && s.phase == Draining && k in s.grips && s.grips[k].claimed
    ensures Enabled(s, Take(k)) && StepsLeft(Next(s, Take(k))) < StepsLeft(s)
  {
    assert GoodGrip(s, k);
    var t := Next(s, Take(k));
    assert t.grips.Keys == s.grips.Keys - {k};
    assert Unclaimed(t) == Unclaimed(s);
  }

  lemma ClaimMoves(s: Sys, k: int)
    requires s.phase == Draining && k in s.grips && forall x :: x in s.grips ==> !s.grips[x].claimed
    ensures Enabled(s, Claim(k)) && StepsLeft(Next(s, Claim(k))) < StepsLeft(s)
  {
    var t := Next(s, Claim(k));
    assert t.grips.Keys == if Flagged(s, k) then s.grips.Keys else s.grips.Keys - {k};
    assert Unclaimed(t) == Unclaimed(s) - {k};
    assert k in Unclaimed(s);
  }

  lemma LoadMoves(s: Sys, k: int)
    requires Safe(s) && s.phase == Draining && k in s.due - s.visited && s.grips.Keys == {}
    ensures Enabled(s, Load(k)) && StepsLeft(Next(s, Load(k))) < StepsLeft(s)
  {
    var t := Next(s, Load(k));
    assert t.due - t.visited == s.due - s.visited - {k};
    assert t.grips.Keys == {k} && Unclaimed(s) == {};
    assert Unclaimed(t) == {k};
  }

  ghost function Unclaimed(s: Sys): set<int> {
    set k | k in s.grips && !s.grips[k].claimed
  }

  ghost function StepsLeft(s: Sys): nat {
    3 * |s.due - s.visited| + |s.grips.Keys| + |Unclaimed(s)|
  }

  lemma DrainStepKeeps(s: Sys, e: Event, id: int, c: Copy)
    requires Safe(s) && Enabled(s, e) && Drains(e) && id !in s.store.jobs && Coming(s, id, c)
    ensures var t := Next(s, e);
            && Safe(t) && t.store.jobs == s.store.jobs && Coming(t, id, c) && t.failed.None?
            && t.phase == (if e.EndDrain? then Saving else Draining) && (e.EndDrain? ==> Listed(t, id, c))
  {
    NextSafe(s, e);
    ComingStays(s, e, id, c);
    match e
    case Claim(k) => assert s.phase == Draining;
    case _ =>
  }

  lemma RunCons(s: Sys, e: Event, es: seq<Event>)
    requires Enabled(s, e) && ValidRun(Next(s, e), es)
    ensures ValidRun(s, [e] + es) && Run(s, [e] + es) == Run(Next(s, e), es)
  {
    assert ([e] + es)[1..] == es;
  }

  lemma {:induction false} DrainOut(s: Sys, id: int, c: Copy) returns (es: seq<Event>)
    requires Safe(s) && s.phase == Draining && id !in s.store.jobs && Coming(s, id, c)
    ensures ValidRun(s, es) && forall e :: e in es ==> Drains(e)
    ensures var t := Run(s, es);
            Safe(t) && t.phase == Saving && t.failed.None? && t.store.jobs == s.store.jobs && Listed(t, id, c)
    decreases StepsLeft(s)
  {
    var e := DrainMoves(s);
    DrainStepKeeps(s, e, id, c);
    var rest := [];
    if !e.EndDrain? {
      rest := DrainOut(Next(s, e), id, c);
    }
    RunCons(s, e, rest);
    es := [e] + rest;
  }

  // In the list, or already in the row with nothing of this ID left to be saved.
  ghost predicate Secured(s: Sys, id: int, c: Copy) {
    || Listed(s, id, c)
    || (!IsHeld(s, id) && id in s.db && s.db[id] == c.job && id in s.rowAt && s.rowAt[id] == c.at)
  }

  lemma SaveSecures(s: Sys, id: int, c: Copy)
    requires Safe(s) && Enabled(s, Save) && Secured(s, id, c)
    ensures Secured(Next(s, Save), id, c)
  {
    var t := Next(s, Save);
    assert GoodCopy(s, 0);
    assert s.held[0].job.id == id ==> HeldAt(s, 0, id);
    assert forall k :: 0 <= k < |t.held| && HeldAt(t, k, id) ==> HeldAt(s, k + 1, id);
    if i :| 0 <= i < |s.held| && HeldAt(s, i, id) && s.held[i] == c {
      assert i > 0 ==> HeldAt(t, i - 1, id) && t.held[i - 1] == c;
    }
  }

  lemma {:induction false} SaveAll(s: Sys, id: int, c: Copy) returns (es: seq<Event>)
    requires Safe(s) && s.failed.None? && id !in s.store.jobs && Secured(s, id, c) && s.phase != Draining
    requires s.phase == Saving || s.held != []
    ensures ValidRun(s, es) && forall e :: e in es ==> e.Save?
    ensures SavedAs(Run(s, es), id, c)
    decreases |s.held|
  {
    if s.held == [] {
      es := [];
    } else {
      var t := Next(s, Save);
      NextSafe(s, Save);
      SaveSecures(s, id, c);
      var rest := SaveAll(t, id, c);
      RunCons(s, Save, rest);
      es := [Save] + rest;
    }
  }
}
