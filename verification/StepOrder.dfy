/** Why the steps of the write-behind come in this order: a drain that copies before it clears the flag, and an update
    that flags before it writes, lose updates. */
module StepOrder {
  import opened Basics
  import opened JobRegistry
  import opened WriteBehind

  /** This version of the job has not been saved, and nothing is going to save it. */
  ghost predicate Lost(s: Sys, id: int, job: JobInfo) {
    && id in s.store.jobs && s.store.jobs[id] == job && id !in s.store.dirty
    && s.editing != Some(id) && s.failed != Some(id)
    && (id in s.grips ==> s.grips[id] == Grip(Table, false))
    && (forall i :: 0 <= i < |s.held| ==> s.held[i].job != job)
    && (id in s.db ==> s.db[id] != job)
    && Keyed(s)
  }

  // Every entry's job carries the ID it is filed under.
  ghost predicate Keyed(s: Sys) {
    && (forall k :: k in s.store.jobs ==> s.store.jobs[k].id == k)
    && (forall k :: k in s.grips && s.grips[k].place.Detached? ==> s.grips[k].place.job.id == k)
  }

  lemma StaysKeyed(s: Sys, e: Event)
    requires Keyed(s) && Enabled(s, e)
    ensures Keyed(Next(s, e))
  {
    match e
    case Put(job) => LeavingSparesOthers(s, job.id);
    case Delete(k) => LeavingSparesOthers(s, k);
    case _ =>
  }

  // No update touches the job, and no flush of it fails and so flags it again.
  predicate Spares(s: Sys, e: Event, id: int) {
    match e
    case Put(job) => job.id != id
    case Delete(k) => k != id
    case Retime(k, _, _) => k != id
    case Restatus(k, _) => k != id
    case Mark(k) => k != id
    case Fail(_) => s.held != [] ==> s.held[0].job.id != id
    case _ => true
  }

  ghost predicate SparedBy(s: Sys, es: seq<Event>, id: int)
    decreases |es|
  {
    es != [] ==> Enabled(s, es[0]) && Spares(s, es[0], id) && SparedBy(Next(s, es[0]), es[1..], id)
  }

  lemma StaysLost(s: Sys, e: Event, id: int, job: JobInfo)
    requires Lost(s, id, job) && Enabled(s, e) && Spares(s, e, id)
    ensures Lost(Next(s, e), id, job)
  {
    StaysKeyed(s, e);
    match e
    case Put(other) => LeavingSparesOthers(s, other.id);
    case Delete(k) => LeavingSparesOthers(s, k);
    case Claim(k) =>
    case Take(k) =>
    case Save =>
    case _ =>
  }

  lemma {:induction false} LostForGood(s: Sys, es: seq<Event>, id: int, job: JobInfo)
    requires Lost(s, id, job) && ValidRun(s, es) && SparedBy(s, es, id)
    ensures Lost(Run(s, es), id, job)
    decreases |es|
  {
    if es != [] {
      StaysLost(s, es[0], id, job);
      LostForGood(Next(s, es[0]), es[1..], id, job);
    }
  }

  // A drain that copies first and clears the flag afterwards, with this update in between.
  function CopiedFirst(s: Sys, id: int, next: int, last: int): Sys
    requires id in s.store.jobs && s.editing.None?
  {
    var copied := s.(held := s.held + [Copy(s.store.jobs[id], Newest(s, id))]);
    var updated := Next(Next(copied, Retime(id, next, last)), Flag);
    updated.(store := updated.store.(dirty := updated.store.dirty - {id}), grips := updated.grips - {id})
  }

  // An update that sets the flag first and writes the fields afterwards, with the drain's claim and copy in between.
  function FlaggedFirst(s: Sys, id: int, next: int, last: int): Sys
    requires Enabled(s, Claim(id)) && s.grips[id].place.Table? && id in s.store.jobs
  {
    var flagged := s.(store := s.store.(dirty := s.store.dirty + {id}));
    var copied := Next(Next(flagged, Claim(id)), Take(id));
    Edited(copied, Retimed(copied.store, id, next, last), id).(editing := None)
  }

  // Nobody else is in the way, and the update changes the job to what its row is not.
  ghost predicate Poised(s: Sys, id: int, next: int, last: int) {
    && Safe(s) && s.editing.None? && s.grips != map[] && Enabled(s, Claim(id)) && s.grips[id].place.Table?
    && id in s.store.jobs
    && var job := s.store.jobs[id].(next := Some(next), last := Some(last));
       job != s.store.jobs[id] && (id in s.db ==> s.db[id] != job)
  }

  lemma PoisedLoses(s: Sys, t: Sys, id: int, next: int, last: int)
    requires Poised(s, id, next, last)
    requires t.store.jobs == s.store.jobs[id := s.store.jobs[id].(next := Some(next), last := Some(last))]
    requires id !in t.store.dirty && t.editing.None? && t.failed.None? && t.db == s.db && t.grips == s.grips - {id}
    requires t.held == s.held + [Copy(s.store.jobs[id], Newest(s, id))]
    ensures Lost(t, id, t.store.jobs[id])
  {
    forall k | k in t.store.jobs ensures t.store.jobs[k].id == k {
      assert Current(s, k);
    }
    forall k | k in t.grips && t.grips[k].place.Detached? ensures t.grips[k].place.job.id == k {
      assert GoodGrip(s, k);
    }
    assert GoodGrip(s, id);
    forall i | 0 <= i < |s.held| ensures s.held[i].job.id != id {
      assert !HeldAt(s, i, id);
    }
  }

  lemma CopiedFirstIs(s: Sys, id: int, next: int, last: int)
    requires id in s.store.jobs && s.editing.None?
    ensures var t := CopiedFirst(s, id, next, last);
            && t.store.jobs == s.store.jobs[id := s.store.jobs[id].(next := Some(next), last := Some(last))]
            && t.store.dirty == s.store.dirty - {id} && t.editing.None? && t.failed == s.failed && t.db == s.db
            && t.grips == s.grips - {id} && t.held == s.held + [Copy(s.store.jobs[id], Newest(s, id))]
  {
    assert s.store.dirty + {id} - {id} == s.store.dirty - {id};
  }

  /** If the drain copied before it cleared the flag, an update in between would never be saved, however often the
      flush loop goes on to run. */
  lemma CopyFirstLosesUpdates(s: Sys, id: int, next: int, last: int, es: seq<Event>)
    requires Poised(s, id, next, last)
    requires ValidRun(CopiedFirst(s, id, next, last), es) && SparedBy(CopiedFirst(s, id, next, last), es, id)
    ensures Lost(Run(CopiedFirst(s, id, next, last), es), id,
                 s.store.jobs[id].(next := Some(next), last := Some(last)))
  {
    var t := CopiedFirst(s, id, next, last);
    CopiedFirstIs(s, id, next, last);
    PoisedLoses(s, t, id, next, last);
    LostForGood(t, es, id, t.store.jobs[id]);
  }

  lemma FlaggedFirstIs(s: Sys, id: int, next: int, last: int)
    requires Enabled(s, Claim(id)) && s.grips[id].place.Table? && id in s.store.jobs
    ensures var t := FlaggedFirst(s, id, next, last);
            && t.store.jobs == s.store.jobs[id := s.store.jobs[id].(next := Some(next), last := Some(last))]
            && t.store.dirty == s.store.dirty - {id} && t.editing.None? && t.failed == s.failed && t.db == s.db
            && t.grips == s.grips - {id} && t.held == s.held + [Copy(s.store.jobs[id], Newest(s, id))]
  {
    var flagged := s.(store := s.store.(dirty := s.store.dirty + {id}));
    var claimed := Next(flagged, Claim(id));
    assert claimed.grips == s.grips[id := Grip(Table, true)] && claimed.store.dirty == s.store.dirty - {id};
  }

  /** If an update flagged the entry before it wrote the fields, it would never be saved when the drain took the flag
      and the copy in between. */
  lemma FlagFirstLosesUpdates(s: Sys, id: int, next: int, last: int, es: seq<Event>)
    requires Poised(s, id, next, last)
    requires ValidRun(FlaggedFirst(s, id, next, last), es) && SparedBy(FlaggedFirst(s, id, next, last), es, id)
    ensures Lost(Run(FlaggedFirst(s, id, next, last), es), id,
                 s.store.jobs[id].(next := Some(next), last := Some(last)))
  {
    var t := FlaggedFirst(s, id, next, last);
    FlaggedFirstIs(s, id, next, last);
    PoisedLoses(s, t, id, next, last);
    LostForGood(t, es, id, t.store.jobs[id]);
  }
}
