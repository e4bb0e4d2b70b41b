/** Write-behind: callers keep updating the job store while one background loop drains dirty entries and then
    writes the copies to the database, one FlushJob at a time.

    The drain takes three steps per entry: the map's Range loads the entry (Load), the flag is swapped from 1 to 0
    (Claim), and the job is copied (Take). An update takes two, under the heap's mutex: the fields are written
    (Retime, Restatus), and then the flag is set (Flag). A failed FlushJob (Fail) is followed by MarkDirty (Remark).
    Anything else may come between these steps. An entry that was loaded may be replaced or removed before its turn
    comes; it then lives on outside the table, with its own job and flag.

    Whoever else uses the database may delete a row at any time, of a job in the table or of one that has left it
    (Erase).

    `hist`, `rowAt` and `erased` are bookkeeping: all versions an ID has had, which of them its row holds, and whose
    row was deleted and not written since. */
module WriteBehind {
  import opened Basics
  import opened JobRegistry

  datatype Phase = Idle | Draining | Saving

  // A copy in the flush list, and the version it was taken from.
  datatype Copy = Copy(job: JobInfo, at: nat)

  // Where a loaded entry is now: still in the table, or out of it with this job and flag; `pending` if the update
  // that wrote the job has yet to set the flag.
  datatype Place = Table | Detached(job: JobInfo, at: nat, dirty: bool, pending: bool)

  // An entry the Range has loaded; `claimed` once its flag was swapped and its copy is still to come.
  datatype Grip = Grip(place: Place, claimed: bool)

  // `editing`: the entry of the table whose fields an update has written but not yet flagged.
  // `failed`: the ID whose FlushJob has failed and is not yet marked again.
  datatype Sys = Sys(store: Registry, editing: Option<int>, db: map<int, JobInfo>, phase: Phase, due: set<int>,
                     visited: set<int>, grips: map<int, Grip>, held: seq<Copy>, failed: Option<int>, fired: set<int>,
                     hist: map<int, seq<JobInfo>>, rowAt: map<int, nat>, erased: set<int>)

  datatype Event =
    | Put(job: JobInfo)
    | Delete(id: int)
    | Retime(id: int, next: int, last: int)
    | Restatus(id: int, status: int)
    | Flag
    | LateFlag(id: int)
    | Mark(id: int)
    | Pop(deadline: int, limit: int, taken: set<int>, dropped: set<int>)
    | StartDrain
    | Load(id: int)
    | Claim(id: int)
    | Take(id: int)
    | EndDrain
    | Save
    | Fail(wrote: bool)
    | Remark
    | EndSave
    | Erase(id: int)

  predicate Enabled(s: Sys, e: Event) {
    match e
    case Retime(id, _, _) => id in s.store.jobs ==> s.editing.None?
    case Restatus(id, _) => id in s.store.jobs ==> s.editing.None?
    case Flag => s.editing.Some?
    case LateFlag(id) => id in s.grips && s.grips[id].place.Detached? && s.grips[id].place.pending
    case Pop(deadline, limit, taken, dropped) => s.editing.None? && Pops(s.store, deadline, limit, taken, dropped)
    case StartDrain => s.phase == Idle
    // A Range visits no key twice; the entry it hands out for a key is one the key had at some moment of the Range.
    case Load(id) => s.phase == Draining && id !in s.visited && id in s.store.jobs
    // The callback runs for one entry at a time.
    case Claim(id) => s.phase == Draining && id in s.grips && forall k :: k in s.grips ==> !s.grips[k].claimed
    case Take(id) =>
      && s.phase == Draining && id in s.grips && s.grips[id].claimed
      && (s.grips[id].place.Table? ==> id in s.store.jobs)
    // It does visit every key that was there from start to end.
    case EndDrain => s.phase == Draining && s.due <= s.visited && s.grips == map[]
    case Save => s.phase == Saving && s.failed.None? && s.held != []
    case Fail(_) => s.phase == Saving && s.failed.None? && s.held != []
    case Remark => s.phase == Saving && s.failed.Some?
    case EndSave => s.phase == Saving && s.failed.None? && s.held == []
    case _ => true
  }

  function Next(s: Sys, e: Event): Sys
    requires Enabled(s, e)
  {
    match e
    case Put(job) => Changed(Detach(s, job.id), Added(s.store, job), job.id)
    case Delete(id) => Detach(s, id).(store := Removed(s.store, id), due := s.due - {id}, fired := s.fired - {id})
    case Retime(id, next, last) => Edited(s, Retimed(s.store, id, next, last), id)
    case Restatus(id, status) => Edited(s, Restatused(s.store, id, status), id)
    case Flag => s.(store := s.store.(dirty := s.store.dirty + {s.editing.value}), editing := None)
    case LateFlag(id) =>
      s.(grips := s.grips[id := s.grips[id].(place := s.grips[id].place.(dirty := true, pending := false))])
    case Mark(id) => s.(store := Marked(s.store, id))
    case Pop(_, _, taken, dropped) => s.(store := Dequeued(s.store, taken + dropped), fired := s.fired + taken)
    case StartDrain => s.(phase := Draining, due := s.store.jobs.Keys, visited := {})
    case Load(id) => s.(visited := s.visited + {id}, grips := s.grips[id := Grip(Table, false)])
    case Claim(id) => Claimed(s, id)
    case Take(id) => s.(held := s.held + [CopyOf(s, id)], grips := s.grips - {id})
    case EndDrain => s.(phase := Saving)
    case Save => Written(s).(held := s.held[1..])
    // FlushJob reports an error, whether or not the row was written.
    case Fail(wrote) => (if wrote then Written(s) else s).(held := s.held[1..], failed := Some(s.held[0].job.id))
    case Remark => s.(store := Marked(s.store, s.failed.value), failed := None)
    case EndSave => s.(phase := Idle)
    case Erase(id) => s.(db := s.db - {id}, rowAt := s.rowAt - {id}, erased := s.erased + {id})
  }

  // The entry leaves the table; whoever has loaded it keeps it.
  function Detach(s: Sys, id: int): Sys {
    if id in s.grips && s.grips[id].place.Table? && id in s.store.jobs then
      var out := Detached(s.store.jobs[id], Newest(s, id), id in s.store.dirty, s.editing == Some(id));
      Left(s, id).(grips := s.grips[id := s.grips[id].(place := out)])
    else Left(s, id)
  }

  function Left(s: Sys, id: int): Sys {
    if s.editing == Some(id) then s.(editing := None) else s
  }

  // The compare-and-swap on the flag of the loaded entry, wherever that entry is now.
  predicate Flagged(s: Sys, id: int)
    requires id in s.grips
  {
    match s.grips[id].place
    case Table => id in s.store.dirty
    case Detached(_, _, dirty, _) => dirty
  }

  function Claimed(s: Sys, id: int): Sys
    requires id in s.grips
  {
    if !Flagged(s, id) then s.(grips := s.grips - {id})
    else match s.grips[id].place
      case Table => s.(store := s.store.(dirty := s.store.dirty - {id}), grips := s.grips[id := Grip(Table, true)])
      case out => s.(grips := s.grips[id := Grip(out.(dirty := false), true)])
  }

  // What the loaded entry holds now.
  function CopyOf(s: Sys, id: int): Copy
    requires id in s.grips && (s.grips[id].place.Table? ==> id in s.store.jobs)
  {
    match s.grips[id].place
    case Table => Copy(s.store.jobs[id], Newest(s, id))
    case Detached(job, at, _, _) => Copy(job, at)
  }

  function Changed(s: Sys, store: Registry, id: int): Sys {
    var versions := if id in s.hist then s.hist[id] else [];
    s.(store := store, fired := s.fired - {id},
       hist := if id in store.jobs then s.hist[id := versions + [store.jobs[id]]] else s.hist)
  }

  // The fields are written, the flag is still as it was.
  function Edited(s: Sys, store: Registry, id: int): Sys {
    Changed(s, store.(dirty := s.store.dirty), id).(editing := if id in s.store.jobs then Some(id) else s.editing)
  }

  function Written(s: Sys): Sys
    requires s.held != []
  {
    var c := s.held[0];
    s.(db := s.db[c.job.id := c.job], rowAt := s.rowAt[c.job.id := c.at], erased := s.erased - {c.job.id})
  }

  function Newest(s: Sys, id: int): nat {
    if id in s.hist && s.hist[id] != [] then |s.hist[id]| - 1 else 0
  }

  /** With nothing in between, an update's two steps are the store's own update. */
  lemma UpdateIsWhole(s: Sys, id: int, next: int, last: int, status: int)
    requires s.editing.None? && id in s.store.jobs
    ensures Next(Next(s, Retime(id, next, last)), Flag).store == Retimed(s.store, id, next, last)
    ensures Next(Next(s, Restatus(id, status)), Flag).store == Restatused(s.store, id, status)
  {
  }

  ghost predicate ValidRun(s: Sys, es: seq<Event>)
    decreases |es|
  {
    es == [] || (Enabled(s, es[0]) && ValidRun(Next(s, es[0]), es[1..]))
  }

  ghost function Run(s: Sys, es: seq<Event>): Sys
    requires ValidRun(s, es)
    decreases |es|
  {
    if es == [] then s else Run(Next(s, es[0]), es[1..])
  }

  // ---------- The invariant ----------

  ghost predicate HeldAt(s: Sys, i: nat, id: int)
    requires i < |s.held|
  {
    s.held[i].job.id == id
  }

  ghost predicate IsHeld(s: Sys, id: int) {
    exists i :: 0 <= i < |s.held| && HeldAt(s, i, id)
  }

  // Version k of the ID is this job.
  ghost predicate Version(s: Sys, id: int, k: nat, job: JobInfo) {
    id in s.hist && k < |s.hist[id]| && s.hist[id][k] == job
  }

  // The flag of the table's entry was taken, and its copy is still to come.
  ghost predicate CopyToCome(s: Sys, id: int) {
    id in s.grips && s.grips[id] == Grip(Table, true)
  }

  /** Dirty, or about to be flagged; or its entry is claimed and will be copied; or its newest version is in the
      flush list; or its newest version is in the row, if nobody has deleted that. */
  ghost predicate Kept(s: Sys, id: int) {
    || id in s.store.dirty || s.editing == Some(id) || s.failed == Some(id) || CopyToCome(s, id)
    || (exists i :: 0 <= i < |s.held| && HeldAt(s, i, id) && s.held[i].at == Newest(s, id))
    || (!IsHeld(s, id) && (id in s.erased || (id in s.rowAt && s.rowAt[id] == Newest(s, id))))
  }

  ghost predicate Current(s: Sys, id: int)
    requires id in s.store.jobs
  {
    s.store.jobs[id].id == id && Version(s, id, Newest(s, id), s.store.jobs[id]) && Kept(s, id)
  }

  // A version of its job, and not older than the row.
  ghost predicate GoodSource(s: Sys, c: Copy) {
    && c.job.id in s.visited && Version(s, c.job.id, c.at, c.job)
    && (c.job.id in s.rowAt ==> s.rowAt[c.job.id] <= c.at)
  }

  ghost predicate GoodCopy(s: Sys, i: nat)
    requires i < |s.held|
  {
    GoodSource(s, s.held[i]) && forall k :: 0 <= k < |s.held| && HeldAt(s, k, s.held[i].job.id) ==> k == i
  }

  ghost predicate GoodGrip(s: Sys, id: int)
    requires id in s.grips
  {
    && id in s.visited && !IsHeld(s, id)
    && match s.grips[id].place
       case Table => id in s.store.jobs
       // Whoever took its place in the table is dirty: only the drain clears flags, and it has been here.
       case Detached(job, at, _, _) =>
         job.id == id && GoodSource(s, Copy(job, at)) && (id in s.store.jobs ==> id in s.store.dirty)
  }

  ghost predicate GoodRow(s: Sys, id: int)
    requires id in s.rowAt
  {
    id in s.db && Version(s, id, s.rowAt[id], s.db[id])
  }

  // What each phase of the flush loop has in hand.
  ghost predicate InPhase(s: Sys) {
    && (s.phase == Idle ==> s.held == [])
    && (s.phase != Draining ==> s.grips == map[])
    && (s.phase != Saving ==> s.failed.None?)
    && (s.phase == Draining ==> s.due <= s.store.jobs.Keys)
    && (s.editing.Some? ==> s.editing.value in s.store.jobs)
  }

  ghost predicate Safe(s: Sys) {
    && (forall id :: id in s.store.jobs ==> Current(s, id))
    && (forall i :: 0 <= i < |s.held| ==> GoodCopy(s, i))
    && (forall id :: id in s.grips ==> GoodGrip(s, id))
    && (forall id :: id in s.rowAt ==> GoodRow(s, id))
    && (forall id :: id in s.erased ==> id !in s.db)
    && InPhase(s)
  }

  /** What bootstrap leaves: every entry clean and equal to its row. */
  ghost predicate Initial(s: Sys) {
    && s.phase == Idle && s.held == [] && s.grips == map[] && s.editing.None? && s.failed.None?
    && s.store.dirty == {} && s.fired == {} && s.erased == {}
    && s.hist.Keys == s.rowAt.Keys == s.store.jobs.Keys && s.store.queued <= s.store.jobs.Keys
    && forall id :: id in s.store.jobs ==> StartsClean(s, id)
  }

  ghost predicate StartsClean(s: Sys, id: int)
    requires id in s.store.jobs
  {
    var job := s.store.jobs[id];
    && job.id == id && id in s.db && s.db[id] == job
    && id in s.hist && s.hist[id] == [job] && id in s.rowAt && s.rowAt[id] == 0
    && (id in s.store.queued <==> Runnable(job))
  }

  /** The state after bootstrap has loaded these rows, in one page or in several. */
  function Booted(rows: seq<JobInfo>, db: map<int, JobInfo>): Sys {
    var store := LoadedAll(Registry(map[], {}, {}), rows);
    Sys(store, None, db, Idle, {}, {}, map[], [], None, {},
        map id | id in store.jobs :: [store.jobs[id]], map id | id in store.jobs :: 0, {})
  }

  /** It is sound if the database still has the rows; of two rows with one ID, the one read last. */
  lemma BootedIsInitial(rows: seq<JobInfo>, db: map<int, JobInfo>)
    requires forall id :: LastRow(rows, id).Some? ==> id in db && db[id] == LastRow(rows, id).value
    ensures Initial(Booted(rows, db))
  {
    var s := Booted(rows, db);
    var empty := Registry(map[], {}, {});
    forall id | id in s.store.jobs ensures StartsClean(s, id) {
      LoadedMeans(empty, rows, id);
    }
    forall id | id in s.store.queued ensures id in s.store.jobs {
      LoadedMeans(empty, rows, id);
    }
    EmptyOrNot(s.store.dirty);
    if id :| id in s.store.dirty {
      LoadedMeans(empty, rows, id);
    }
    assert s.store.dirty == {} && s.hist.Keys == s.store.jobs.Keys && s.rowAt.Keys == s.store.jobs.Keys;
  }

  // ---------- Each event keeps it ----------

  // Same flush list and rows, and every version is still one.
  ghost predicate SameCopies(s: Sys, t: Sys) {
    && t.held == s.held && t.rowAt == s.rowAt && t.db == s.db && t.erased == s.erased
    && (s.visited <= t.visited || (t.held == [] && t.grips == map[]))
    && (forall id :: id in s.hist ==> id in t.hist && s.hist[id] <= t.hist[id])
  }

  lemma SameHeld(s: Sys, t: Sys, id: int)
    requires t.held == s.held
    ensures IsHeld(s, id) == IsHeld(t, id)
  {
    if i :| 0 <= i < |s.held| && HeldAt(s, i, id) {
      assert HeldAt(t, i, id);
    }
    if i :| 0 <= i < |t.held| && HeldAt(t, i, id) {
      assert HeldAt(s, i, id);
    }
  }

  lemma SameCopiesKeepsSafe(s: Sys, t: Sys)
    requires Safe(s) && SameCopies(s, t) && InPhase(t)
    requires forall id :: id in t.store.jobs ==> Current(t, id)
    requires forall id :: id in t.grips ==> GoodGrip(t, id)
    ensures Safe(t)
  {
    forall i | 0 <= i < |t.held| ensures GoodCopy(t, i) {
      assert GoodCopy(s, i);
      forall k | 0 <= k < |t.held| && HeldAt(t, k, t.held[i].job.id) ensures k == i {
        assert HeldAt(s, k, s.held[i].job.id);
      }
    }
    forall x | x in t.rowAt ensures GoodRow(t, x) {
      assert GoodRow(s, x);
    }
  }

  lemma KeptElsewhere(s: Sys, t: Sys, id: int)
    requires Kept(s, id) && Newest(t, id) == Newest(s, id)
    requires t.held == s.held && t.rowAt == s.rowAt && t.erased == s.erased
    requires s.failed == Some(id) ==> t.failed == Some(id) || id in t.store.dirty
    requires s.editing == Some(id) ==> t.editing == Some(id) || id in t.store.dirty
    requires id in s.store.dirty ==> id in t.store.dirty || CopyToCome(t, id)
    requires CopyToCome(s, id) ==> CopyToCome(t, id)
    ensures Kept(t, id)
  {
    SameHeld(s, t, id);
    if i :| 0 <= i < |s.held| && HeldAt(s, i, id) && s.held[i].at == Newest(s, id) {
      assert HeldAt(t, i, id);
    }
  }

  lemma GripElsewhere(s: Sys, t: Sys, id: int)
    requires id in s.grips && GoodGrip(s, id) && SameCopies(s, t)
    requires id in t.grips && t.grips[id].place == s.grips[id].place
    requires id in t.store.jobs <==> id in s.store.jobs
    requires id in s.store.dirty ==> id in t.store.dirty
    ensures GoodGrip(t, id)
  {
    SameHeld(s, t, id);
  }

  // The table's entries, their flags and the grips only move together, as in an update or a flag being set.
  lemma MoveKeepsSafe(s: Sys, t: Sys)
    requires Safe(s) && SameCopies(s, t) && InPhase(t) && t.hist == s.hist && t.failed == s.failed
    requires t.store.jobs == s.store.jobs && s.store.dirty <= t.store.dirty
    requires t.grips == s.grips || t.grips == map[]
    requires s.editing == t.editing || (s.editing.Some? && s.editing.value in t.store.dirty)
    requires t.grips == map[] ==> s.grips == map[]
    ensures Safe(t)
  {
    forall x | x in t.store.jobs ensures Current(t, x) {
      assert Current(s, x);
      KeptElsewhere(s, t, x);
    }
    forall x | x in t.grips ensures GoodGrip(t, x) {
      GripElsewhere(s, t, x);
    }
    SameCopiesKeepsSafe(s, t);
  }

  lemma PutKeepsSafe(s: Sys, job: JobInfo)
    requires Safe(s)
    ensures Safe(Next(s, Put(job)))
  {
    var t := Next(s, Put(job));
    LeavingSparesOthers(s, job.id);
    forall x | x in t.store.jobs ensures Current(t, x) {
      if x != job.id {
        assert Current(s, x);
        KeptElsewhere(s, t, x);
      }
    }
    PutKeepsGrips(s, job);
    SameCopiesKeepsSafe(s, t);
  }

  lemma PutKeepsGrips(s: Sys, job: JobInfo)
    requires Safe(s)
    ensures var t := Next(s, Put(job)); SameCopies(s, t) && forall x :: x in t.grips ==> GoodGrip(t, x)
  {
    var t := Next(s, Put(job));
    LeavingSparesOthers(s, job.id);
    forall x | x in t.grips ensures GoodGrip(t, x) {
      if x == job.id {
        DetachedGrip(s, t, x);
      } else {
        GripElsewhere(s, t, x);
      }
    }
  }

  lemma LeavingSparesOthers(s: Sys, id: int)
    ensures var t := Detach(s, id);
            && t == s.(grips := t.grips, editing := t.editing) && t.grips.Keys == s.grips.Keys
            && (forall x :: x in s.grips && x != id ==> t.grips[x] == s.grips[x])
            && t.editing == if s.editing == Some(id) then None else s.editing
  {
  }

  // The entry that leaves the table keeps its job, which was the newest version.
  lemma DetachedGrip(s: Sys, t: Sys, id: int)
    requires Safe(s) && id in s.grips && SameCopies(s, t) && t.grips == Detach(s, id).grips && t.visited == s.visited
    requires id in t.store.jobs ==> id in t.store.dirty
    ensures GoodGrip(t, id)
  {
    assert GoodGrip(s, id);
    SameHeld(s, t, id);
    if s.grips[id].place.Table? {
      assert Current(s, id);
      assert id in s.rowAt ==> GoodRow(s, id);
    }
  }

  lemma DeleteKeepsSafe(s: Sys, id: int)
    requires Safe(s)
    ensures Safe(Next(s, Delete(id)))
  {
    var t := Next(s, Delete(id));
    LeavingSparesOthers(s, id);
    forall x | x in t.store.jobs ensures Current(t, x) {
      assert Current(s, x);
      KeptElsewhere(s, t, x);
    }
    DeleteKeepsGrips(s, id);
    SameCopiesKeepsSafe(s, t);
  }

  lemma DeleteKeepsGrips(s: Sys, id: int)
    requires Safe(s)
    ensures var t := Next(s, Delete(id)); SameCopies(s, t) && forall x :: x in t.grips ==> GoodGrip(t, x)
  {
    var t := Next(s, Delete(id));
    LeavingSparesOthers(s, id);
    forall x | x in t.grips ensures GoodGrip(t, x) {
      if x == id {
        DetachedGrip(s, t, x);
      } else {
        GripElsewhere(s, t, x);
      }
    }
  }

  lemma EditKeepsSafe(s: Sys, store: Registry, id: int)
    requires Safe(s) && (id in s.store.jobs ==> s.editing.None?)
    requires id !in s.store.jobs ==> store == s.store
    requires id in s.store.jobs ==> exists job: JobInfo :: job.id == id && store.jobs == s.store.jobs[id := job]
    ensures Safe(Edited(s, store, id))
  {
    var t := Edited(s, store, id);
    forall x | x in t.store.jobs ensures Current(t, x) {
      if x != id {
        assert Current(s, x);
        KeptElsewhere(s, t, x);
      }
    }
    forall x | x in t.grips ensures GoodGrip(t, x) {
      GripElsewhere(s, t, x);
    }
    SameCopiesKeepsSafe(s, t);
  }

  lemma LateFlagKeepsSafe(s: Sys, id: int)
    requires Safe(s) && Enabled(s, LateFlag(id))
    ensures Safe(Next(s, LateFlag(id)))
  {
    var t := Next(s, LateFlag(id));
    forall x | x in t.store.jobs ensures Current(t, x) {
      assert Current(s, x);
      KeptElsewhere(s, t, x);
    }
    forall x | x in t.grips ensures GoodGrip(t, x) {
      assert GoodGrip(s, x);
      SameHeld(s, t, x);
    }
    SameCopiesKeepsSafe(s, t);
  }

  // A key not yet visited has no copy in the list.
  lemma LoadKeepsSafe(s: Sys, id: int)
    requires Safe(s) && Enabled(s, Load(id))
    ensures Safe(Next(s, Load(id)))
  {
    var t := Next(s, Load(id));
    assert id in s.grips ==> GoodGrip(s, id);
    forall x | x in t.store.jobs ensures Current(t, x) {
      assert Current(s, x);
      KeptElsewhere(s, t, x);
    }
    forall x | x in t.grips ensures GoodGrip(t, x) {
      if x == id {
        forall i | 0 <= i < |t.held| ensures !HeldAt(t, i, id) {
          assert GoodCopy(s, i);
        }
      } else {
        GripElsewhere(s, t, x);
      }
    }
    SameCopiesKeepsSafe(s, t);
  }

  /** Swapping the flag keeps the job accounted for, because the copy is still to come: this is why the flag is
      cleared before the copy is taken. */
  lemma ClaimKeepsSafe(s: Sys, id: int)
    requires Safe(s) && Enabled(s, Claim(id))
    ensures Safe(Next(s, Claim(id)))
    ensures id in s.store.jobs && s.grips[id].place.Table? && id in s.store.dirty ==> CopyToCome(Next(s, Claim(id)), id)
  {
    var t := Next(s, Claim(id));
    assert GoodGrip(s, id);
    ClaimKeepsGrips(s, id);
    forall x | x in t.store.jobs ensures Current(t, x) {
      assert Current(s, x);
      KeptElsewhere(s, t, x);
    }
    SameCopiesKeepsSafe(s, t);
  }

  lemma ClaimKeepsGrips(s: Sys, id: int)
    requires Safe(s) && Enabled(s, Claim(id))
    ensures forall x :: x in Next(s, Claim(id)).grips ==> GoodGrip(Next(s, Claim(id)), x)
  {
    var t := Next(s, Claim(id));
    forall x | x in t.grips ensures GoodGrip(t, x) {
      assert GoodGrip(s, x);
      SameHeld(s, t, x);
    }
  }

  /** The copy is the entry's job as it is now: the newest version if the entry is still in the table, and otherwise
      one no older than the row, while the job that replaced it is dirty. */
  lemma TakeKeepsSafe(s: Sys, id: int)
    requires Safe(s) && Enabled(s, Take(id))
    ensures Safe(Next(s, Take(id)))
    ensures s.grips[id].place.Table? ==> Next(s, Take(id)).held == s.held + [Copy(s.store.jobs[id], Newest(s, id))]
  {
    var t := Next(s, Take(id));
    TakenCopyIsGood(s, id);
    assert GoodGrip(s, id);
    forall i | 0 <= i < |t.held| ensures GoodCopy(t, i) {
      assert i < |s.held| ==> GoodCopy(s, i);
      forall k | 0 <= k < |t.held| && HeldAt(t, k, t.held[i].job.id) ensures k == i {
        assert k < |s.held| ==> HeldAt(s, k, t.held[i].job.id);
        assert i < |s.held| ==> HeldAt(s, i, s.held[i].job.id);
      }
    }
    forall x | x in t.rowAt ensures GoodRow(t, x) {
      assert GoodRow(s, x);
    }
    forall x | x in t.store.jobs ensures Current(t, x) {
      assert Current(s, x);
      TakeKeepsKept(s, id, x);
    }
    forall x | x in t.grips ensures GoodGrip(t, x) {
      assert GoodGrip(s, x);
      TakeHolds(s, id, x);
    }
  }

  lemma TakenCopyIsGood(s: Sys, id: int)
    requires Safe(s) && Enabled(s, Take(id))
    ensures CopyOf(s, id).job.id == id && GoodSource(s, CopyOf(s, id))
  {
    assert GoodGrip(s, id);
    if s.grips[id].place.Table? {
      assert Current(s, id);
      assert id in s.rowAt ==> GoodRow(s, id);
    }
  }

  lemma TakeHolds(s: Sys, id: int, x: int)
    requires Safe(s) && Enabled(s, Take(id)) && CopyOf(s, id).job.id == id
    ensures IsHeld(Next(s, Take(id)), x) <==> x == id || IsHeld(s, x)
  {
    var t := Next(s, Take(id));
    assert HeldAt(t, |s.held|, id);
    if i :| 0 <= i < |t.held| && HeldAt(t, i, x) {
      assert i < |s.held| ==> HeldAt(s, i, x);
    }
    if i :| 0 <= i < |s.held| && HeldAt(s, i, x) {
      assert HeldAt(t, i, x);
    }
  }

  lemma TakeKeepsKept(s: Sys, id: int, x: int)
    requires Safe(s) && Enabled(s, Take(id)) && x in s.store.jobs && Kept(s, x)
    ensures Kept(Next(s, Take(id)), x)
  {
    var t := Next(s, Take(id));
    TakenCopyIsGood(s, id);
    TakeHolds(s, id, x);
    if x == id {
      assert GoodGrip(s, id);
      assert HeldAt(t, |s.held|, id);
    } else if i :| 0 <= i < |s.held| && HeldAt(s, i, x) && s.held[i].at == Newest(s, x) {
      assert HeldAt(t, i, x);
    }
  }

  lemma SaveKeepsSafe(s: Sys, e: Event)
    requires Safe(s) && (e.Save? || e.Fail?) && Enabled(s, e)
    ensures Safe(Next(s, e))
  {
    var t := Next(s, e);
    var c := s.held[0];
    assert GoodCopy(s, 0) && HeldAt(s, 0, c.job.id);
    forall i | 0 <= i < |t.held| ensures GoodCopy(t, i) {
      assert t.held[i] == s.held[i + 1];
      assert GoodCopy(s, i + 1);
      forall k | 0 <= k < |t.held| && HeldAt(t, k, t.held[i].job.id) ensures k == i {
        assert HeldAt(s, k + 1, s.held[i + 1].job.id);
      }
      assert t.held[i].job.id != c.job.id by {
        assert HeldAt(s, i + 1, t.held[i].job.id);
      }
    }
    forall x | x in t.rowAt ensures GoodRow(t, x) {
      assert x == c.job.id || GoodRow(s, x);
    }
    forall x | x in t.store.jobs ensures Current(t, x) {
      assert Current(s, x);
      SaveKeepsKept(s, e, x);
    }
  }

  lemma SaveKeepsKept(s: Sys, e: Event, x: int)
    requires Safe(s) && (e.Save? || e.Fail?) && Enabled(s, e) && x in s.store.jobs
    ensures Kept(Next(s, e), x)
  {
    var t := Next(s, e);
    assert Current(s, x) && GoodCopy(s, 0) && HeldAt(s, 0, s.held[0].job.id);
    if i :| 0 <= i < |t.held| && HeldAt(t, i, x) {
      assert HeldAt(s, i + 1, x);
    }
    if i :| 0 <= i < |s.held| && HeldAt(s, i, x) && s.held[i].at == Newest(s, x) {
      if i > 0 {
        assert HeldAt(t, i - 1, x);
      }
    }
  }

  lemma NextSafe(s: Sys, e: Event)
    requires Safe(s) && Enabled(s, e)
    ensures Safe(Next(s, e))
  {
    match e
    case Put(job) => PutKeepsSafe(s, job);
    case Delete(id) => DeleteKeepsSafe(s, id);
    case Retime(id, next, last) =>
      assert id in s.store.jobs ==> Current(s, id);
      EditKeepsSafe(s, Retimed(s.store, id, next, last), id);
    case Restatus(id, status) =>
      assert id in s.store.jobs ==> Current(s, id);
      EditKeepsSafe(s, Restatused(s.store, id, status), id);
    case LateFlag(id) => LateFlagKeepsSafe(s, id);
    case Load(id) => LoadKeepsSafe(s, id);
    case Claim(id) => ClaimKeepsSafe(s, id);
    case Take(id) => TakeKeepsSafe(s, id);
    case Save => SaveKeepsSafe(s, e);
    case Fail(_) => SaveKeepsSafe(s, e);
    case Remark => RemarkKeepsSafe(s);
    case Erase(id) => EraseKeepsSafe(s, id);
    case _ => MoveKeepsSafe(s, Next(s, e));
  }

  lemma RemarkKeepsSafe(s: Sys)
    requires Safe(s) && Enabled(s, Remark)
    ensures Safe(Next(s, Remark))
  {
    var t := Next(s, Remark);
    forall x | x in t.store.jobs ensures Current(t, x) {
      assert Current(s, x);
      KeptElsewhere(s, t, x);
    }
    SameCopiesKeepsSafe(s, t);
  }

  // Deleting a row takes nothing from the store, the drain or the flush list.
  lemma EraseKeepsSafe(s: Sys, id: int)
    requires Safe(s)
    ensures Safe(Next(s, Erase(id)))
  {
    var t := Next(s, Erase(id));
    forall i | 0 <= i < |t.held| ensures GoodCopy(t, i) {
      assert GoodCopy(s, i);
      forall k | 0 <= k < |t.held| && HeldAt(t, k, t.held[i].job.id) ensures k == i {
        assert HeldAt(s, k, s.held[i].job.id);
      }
    }
    forall x | x in t.rowAt ensures GoodRow(t, x) {
      assert GoodRow(s, x);
    }
    forall x | x in t.store.jobs ensures Current(t, x) {
      assert Current(s, x);
      EraseKeepsKept(s, id, x);
    }
    forall x | x in t.grips ensures GoodGrip(t, x) {
      assert GoodGrip(s, x);
      SameHeld(s, t, x);
    }
  }

  lemma EraseKeepsKept(s: Sys, id: int, x: int)
    requires Kept(s, x)
    ensures Kept(Next(s, Erase(id)), x)
  {
    var t := Next(s, Erase(id));
    SameHeld(s, t, x);
    if i :| 0 <= i < |s.held| && HeldAt(s, i, x) && s.held[i].at == Newest(s, x) {
      assert HeldAt(t, i, x);
    }
  }

  // ---------- Whole runs ----------

  lemma InitialSafe(s: Sys)
    requires Initial(s)
    ensures Safe(s)
  {
    forall id | id in s.store.jobs ensures Current(s, id) {
      assert StartsClean(s, id);
    }
    forall id | id in s.rowAt ensures GoodRow(s, id) {
      assert StartsClean(s, id);
    }
  }

  /** Nothing is lost: after any interleaving of updates with draining and saving, every job in the store is
      dirty or just about to be (its update has written it, or its FlushJob has failed), or its entry is claimed and
      will be copied, or it sits unchanged in the flush list, or it equals its row; or someone has deleted that row. */
  lemma {:induction false} NothingLost(s: Sys, es: seq<Event>, id: int)
    requires Safe(s) && ValidRun(s, es)
    ensures var t := Run(s, es);
            && Safe(t)
            && (id in t.store.jobs ==>
                  || id in t.store.dirty || t.editing == Some(id) || t.failed == Some(id) || CopyToCome(t, id)
                  || (exists i :: 0 <= i < |t.held| && HeldAt(t, i, id) && t.held[i].job == t.store.jobs[id])
                  || (if id in t.erased then id !in t.db else id in t.db && t.db[id] == t.store.jobs[id]))
    decreases |es|
  {
    if es == [] {
      if id in s.store.jobs {
        assert Current(s, id);
        if i :| 0 <= i < |s.held| && HeldAt(s, i, id) && s.held[i].at == Newest(s, id) {
          assert GoodCopy(s, i);
        }
        assert id in s.rowAt ==> GoodRow(s, id);
      }
    } else {
      NextSafe(s, es[0]);
      NothingLost(Next(s, es[0]), es[1..], id);
    }
  }

  // No row, copy or job of this ID is an earlier version than v.
  ghost predicate NoneBefore(s: Sys, id: int, v: nat) {
    && v <= Newest(s, id)
    && (id in s.rowAt ==> v <= s.rowAt[id])
    && (forall i :: 0 <= i < |s.held| && HeldAt(s, i, id) ==> v <= s.held[i].at)
    && (id in s.grips && s.grips[id].place.Detached? ==> v <= s.grips[id].place.at)
  }

  lemma NextNotBefore(s: Sys, e: Event, id: int, v: nat)
    requires Safe(s) && Enabled(s, e) && NoneBefore(s, id, v)
    ensures NoneBefore(Next(s, e), id, v)
  {
    match e
    case Put(job) => LeavingSparesOthers(s, job.id);
    case Delete(k) => LeavingSparesOthers(s, k);
    case Take(k) => TakeNotBefore(s, k, id, v);
    case Save => SaveNotBefore(s, e, id, v);
    case Fail(_) => SaveNotBefore(s, e, id, v);
    case _ => RestNotBefore(s, e, id, v);
  }

  lemma RestNotBefore(s: Sys, e: Event, id: int, v: nat)
    requires Enabled(s, e) && NoneBefore(s, id, v)
    requires !e.Put? && !e.Delete? && !e.Take? && !e.Save? && !e.Fail?
    ensures NoneBefore(Next(s, e), id, v)
  {
    assert Next(s, e).held == s.held;
    match e
    case Claim(_) =>
    case LateFlag(_) =>
    case _ =>
  }

  lemma TakeNotBefore(s: Sys, k: int, id: int, v: nat)
    requires Safe(s) && Enabled(s, Take(k)) && NoneBefore(s, id, v)
    ensures NoneBefore(Next(s, Take(k)), id, v)
  {
    var t := Next(s, Take(k));
    TakenCopyIsGood(s, k);
    forall i | 0 <= i < |t.held| && HeldAt(t, i, id) ensures v <= t.held[i].at {
      assert i < |s.held| ==> HeldAt(s, i, id);
    }
  }

  lemma SaveNotBefore(s: Sys, e: Event, id: int, v: nat)
    requires (e.Save? || e.Fail?) && Enabled(s, e) && NoneBefore(s, id, v)
    ensures NoneBefore(Next(s, e), id, v)
  {
    var t := Next(s, e);
    assert s.held[0].job.id == id ==> HeldAt(s, 0, id);
    forall i | 0 <= i < |t.held| && HeldAt(t, i, id) ensures v <= t.held[i].at {
      assert HeldAt(s, i + 1, id);
    }
  }

  lemma {:induction false} NeverBefore(s: Sys, es: seq<Event>, id: int, v: nat)
    requires Safe(s) && ValidRun(s, es) && NoneBefore(s, id, v)
    ensures Safe(Run(s, es)) && NoneBefore(Run(s, es), id, v)
    ensures id in s.rowAt && (forall e :: e in es ==> e != Erase(id)) ==> id in Run(s, es).rowAt
    decreases |es|
  {
    if es != [] {
      NextSafe(s, es[0]);
      NextNotBefore(s, es[0], id, v);
      NeverBefore(Next(s, es[0]), es[1..], id, v);
      assert es[0] in es && forall e :: e in es[1..] ==> e in es;
    }
  }

  /** A row only ever moves to a later version of its job, deletions in between included: what is written after one is
      no earlier version either. */
  lemma RowsMoveForward(s: Sys, es: seq<Event>, id: int)
    requires Safe(s) && ValidRun(s, es) && id in s.rowAt
    ensures var t := Run(s, es);
            && (id in t.rowAt ==> s.rowAt[id] <= t.rowAt[id] && GoodRow(t, id))
            && ((forall e :: e in es ==> e != Erase(id)) ==> id in t.rowAt)
  {
    assert GoodRow(s, id) && (id in s.grips ==> GoodGrip(s, id));
    forall i | 0 <= i < |s.held| && HeldAt(s, i, id) ensures s.rowAt[id] <= s.held[i].at {
      assert GoodCopy(s, i);
    }
    NeverBefore(s, es, id, s.rowAt[id]);
    assert id in Run(s, es).rowAt ==> GoodRow(Run(s, es), id);
  }

  // ---------- The flush itself ----------

  predicate Drains(e: Event) {
    e.Load? || e.Claim? || e.Take? || e.EndDrain?
  }

  ghost predicate FlushOnly(es: seq<Event>) {
    forall i :: 0 <= i < |es| ==> Drains(es[i]) || es[i].StartDrain? || es[i].Save? || es[i].EndSave?
  }

  // With nobody else updating: entries that were visited and let go are clean, and once the Range has ended all are.
  ghost predicate Quiet(s: Sys) {
    && s.editing.None? && s.failed.None?
    && s.store.dirty <= s.store.jobs.Keys
    && (s.phase == Draining ==> s.due == s.store.jobs.Keys && forall id :: id in s.store.dirty ==> Awaited(s, id))
    && (s.phase == Saving ==> s.store.dirty == {})
  }

  // Not yet loaded, or loaded and not yet claimed.
  ghost predicate Awaited(s: Sys, id: int) {
    if id in s.grips then s.grips[id] == Grip(Table, false) else id !in s.visited
  }

  lemma FlushStepIsQuiet(s: Sys, e: Event)
    requires Safe(s) && Enabled(s, e) && Quiet(s) && (s.phase == Idle ==> s.store.dirty == {} || e.StartDrain?)
    requires Drains(e) || e.StartDrain? || e.Save? || e.EndSave?
    ensures var t := Next(s, e);
            && Quiet(t) && t.store.jobs == s.store.jobs && t.erased <= s.erased
            && (t.phase == Idle ==> t.store.dirty == {})
  {
    match e
    case Claim(id) => ClaimIsQuiet(s, id);
    case Load(id) => assert forall x :: x in s.store.dirty ==> Awaited(s, x) && Awaited(Next(s, e), x);
    case Take(id) => assert forall x :: x in s.store.dirty ==> Awaited(s, x) && Awaited(Next(s, e), x);
    case EndDrain => EndIsQuiet(s);
    case _ =>
  }

  lemma EndIsQuiet(s: Sys)
    requires Enabled(s, EndDrain) && Quiet(s)
    ensures s.store.dirty == {}
  {
    EmptyOrNot(s.store.dirty);
    assert forall x :: x in s.store.dirty ==> Awaited(s, x);
  }

  lemma ClaimIsQuiet(s: Sys, id: int)
    requires Safe(s) && Enabled(s, Claim(id)) && Quiet(s)
    ensures Quiet(Next(s, Claim(id)))
  {
    assert GoodGrip(s, id);
    assert forall x :: x in s.store.dirty ==> Awaited(s, x);
    assert forall x :: x in Next(s, Claim(id)).store.dirty ==> Awaited(Next(s, Claim(id)), x);
  }

  lemma {:induction false} QuietFlush(s: Sys, es: seq<Event>)
    requires Safe(s) && ValidRun(s, es) && FlushOnly(es) && Quiet(s)
    requires s.phase == Idle ==> s.store.dirty == {} || (es != [] && es[0] == StartDrain)
    ensures var t := Run(s, es);
            && Safe(t) && Quiet(t) && t.store.jobs == s.store.jobs && t.erased <= s.erased
            && (t.phase == Idle ==> t.store.dirty == {})
    decreases |es|
  {
    if es != [] {
      NextSafe(s, es[0]);
      FlushStepIsQuiet(s, es[0]);
      assert forall i :: 0 <= i < |es[1..]| ==> es[1..][i] == es[i + 1];
      QuietFlush(Next(s, es[0]), es[1..]);
    }
  }

  // The row is there, or the job is on its way to it.
  ghost predicate OnItsWay(s: Sys, id: int) {
    id !in s.erased || id in s.store.dirty || CopyToCome(s, id) || IsHeld(s, id)
  }

  lemma FlushStepBringsIt(s: Sys, e: Event, id: int)
    requires Safe(s) && Enabled(s, e) && Quiet(s) && OnItsWay(s, id)
    requires Drains(e) || e.StartDrain? || e.Save? || e.EndSave?
    ensures OnItsWay(Next(s, e), id)
  {
    var t := Next(s, e);
    assert e.Claim? && e.id in s.store.dirty ==> Awaited(s, e.id);
    if e.Take? {
      TakenCopyIsGood(s, e.id);
      TakeHolds(s, e.id, id);
    } else if e.Save? {
      if i :| 0 <= i < |s.held| && HeldAt(s, i, id) {
        assert i > 0 ==> HeldAt(t, i - 1, id);
      }
    } else {
      SameHeld(s, t, id);
    }
  }

  lemma {:induction false} FlushBringsIt(s: Sys, es: seq<Event>, id: int)
    requires Safe(s) && ValidRun(s, es) && FlushOnly(es) && Quiet(s) && OnItsWay(s, id)
    requires s.phase == Idle ==> s.store.dirty == {} || (es != [] && es[0] == StartDrain)
    ensures OnItsWay(Run(s, es), id)
    decreases |es|
  {
    if es != [] {
      NextSafe(s, es[0]);
      FlushStepIsQuiet(s, es[0]);
      FlushStepBringsIt(s, es[0], id);
      assert forall i :: 0 <= i < |es[1..]| ==> es[1..][i] == es[i + 1];
      FlushBringsIt(Next(s, es[0]), es[1..], id);
    }
  }

  /** The flush before exit: with no further updates and no failing FlushJob, it ends with nothing dirty and every job
      equal to its row, but for rows that someone had deleted while their jobs were clean. */
  lemma FinalFlush(s: Sys, es: seq<Event>, id: int)
    requires Safe(s) && s.phase == Idle && s.editing.None? && s.store.dirty <= s.store.jobs.Keys
    requires es != [] && es[0] == StartDrain && ValidRun(s, es) && FlushOnly(es)
    requires Run(s, es).phase == Idle && id in s.store.jobs
    ensures var t := Run(s, es);
            && t.store.dirty == {} && t.erased <= s.erased && (id in s.store.dirty ==> id !in t.erased)
            && if id in t.erased then id !in t.db else id in t.db && t.db[id] == s.store.jobs[id]
  {
    QuietFlush(s, es);
    if id in s.store.dirty {
      FlushBringsIt(s, es, id);
    }
    NothingLost(Run(s, es), [], id);
  }

  // ---------- The queue ----------

  /** Only jobs of the table are queued, under a time; a runnable job is queued, or was popped and waits for its
      next trigger time, never both. */
  ghost predicate Scheduled(s: Sys) {
    && s.store.queued !! s.fired
    && (forall id :: id in s.store.queued ==> id in s.store.jobs && s.store.jobs[id].next.Some?)
    && (forall id :: id in s.store.jobs && Runnable(s.store.jobs[id]) ==> id in s.store.queued || id in s.fired)
  }

  lemma StaysScheduled(s: Sys, e: Event)
    requires Scheduled(s) && Enabled(s, e)
    ensures Scheduled(Next(s, e))
  {
    match e
    case Put(job) => LeavingSparesOthers(s, job.id);
    case Delete(id) => LeavingSparesOthers(s, id);
    case _ =>
  }

  lemma {:induction false} NoJobForgotten(s: Sys, es: seq<Event>)
    requires Scheduled(s) && ValidRun(s, es)
    ensures Scheduled(Run(s, es))
    decreases |es|
  {
    if es != [] {
      StaysScheduled(s, es[0]);
      NoJobForgotten(Next(s, es[0]), es[1..]);
    }
  }

  predicate Touches(e: Event, id: int) {
    match e
    case Put(job) => job.id == id
    case Delete(k) => k == id
    case Retime(k, _, _) => k == id
    case Restatus(k, _) => k == id
    case _ => false
  }

  // No update of the job, and no PopDue that returns it.
  predicate LeavesQueued(e: Event, id: int) {
    !Touches(e, id) && (e.Pop? ==> id !in e.taken)
  }

  // In the queue, to run at this time.
  ghost predicate AwaitsTime(s: Sys, id: int, next: int) {
    && id in s.store.queued && id !in s.fired
    && id in s.store.jobs && s.store.jobs[id].status == JOB_RUN && s.store.jobs[id].next == Some(next)
  }

  lemma KeepsAwaiting(s: Sys, e: Event, id: int, next: int)
    requires AwaitsTime(s, id, next) && Enabled(s, e) && LeavesQueued(e, id)
    ensures AwaitsTime(Next(s, e), id, next)
  {
    match e
    case Put(job) => LeavingSparesOthers(s, job.id);
    case Delete(k) => LeavingSparesOthers(s, k);
    case _ =>
  }

  lemma {:induction false} AwaitsOn(s: Sys, es: seq<Event>, id: int, next: int)
    requires AwaitsTime(s, id, next) && ValidRun(s, es) && forall e :: e in es ==> LeavesQueued(e, id)
    ensures AwaitsTime(Run(s, es), id, next)
    decreases |es|
  {
    if es != [] {
      assert es[0] in es && forall e :: e in es[1..] ==> e in es;
      KeepsAwaiting(s, es[0], id, next);
      AwaitsOn(Next(s, es[0]), es[1..], id, next);
    }
  }

  /** Fire and reschedule: a running job, popped or not, that is given its next trigger time is queued for it, whatever
      happens to other jobs; the first PopDue that may take it, by its deadline and its limit, does, and one that has no
      room for it takes only jobs that are due no later. */
  lemma RescheduledFiresAgain(s: Sys, id: int, next: int, last: int, es: seq<Event>, pop: Event)
    requires Enabled(s, Retime(id, next, last)) && id in s.store.jobs && s.store.jobs[id].status == JOB_RUN
    requires ValidRun(Next(s, Retime(id, next, last)), es) && forall e :: e in es ==> LeavesQueued(e, id)
    requires pop.Pop? && pop.deadline >= next && Enabled(Run(Next(s, Retime(id, next, last)), es), pop)
    ensures var u := Run(Next(s, Retime(id, next, last)), es);
            && AwaitsTime(u, id, next)
            && (|pop.taken| < pop.limit ==> id in pop.taken)
            && (id !in pop.taken ==> forall x :: x in pop.taken ==> u.store.jobs[x].next.value <= next)
  {
    AwaitsOn(Next(s, Retime(id, next, last)), es, id, next);
  }

  lemma InitialScheduled(s: Sys)
    requires Initial(s)
    ensures Scheduled(s)
  {
    forall id | id in s.store.jobs ensures id in s.store.queued <==> Runnable(s.store.jobs[id]) {
      assert StartsClean(s, id);
    }
  }

  // UpdateStatus gives a queued job neither of the two known statuses.
  predicate UnknownStatus(s: Sys, e: Event) {
    e.Restatus? && e.status != JOB_RUN && e.status != JOB_STOP && e.id in s.store.queued
  }

  // While all queued jobs are in JobRun status, an event leaves them so unless it is such an update.
  lemma StaleOnlyByUnknownStatus(s: Sys, e: Event)
    requires NoneStale(s.store) && Enabled(s, e)
    requires forall id :: id in s.store.jobs ==> s.store.jobs[id].id == id
    ensures NoneStale(Next(s, e).store) <==> !UnknownStatus(s, e)
  {
    if e.Restatus? && e.id in s.store.queued {
      var r := Restatused(s.store, e.id, e.status);
      assert e.id in r.queued ==> r.jobs[e.id].status == e.status;
    }
  }

  ghost predicate NeverStale(s: Sys, es: seq<Event>)
    requires ValidRun(s, es)
    decreases |es|
  {
    NoneStale(s.store) && (es != [] ==> NeverStale(Next(s, es[0]), es[1..]))
  }

  ghost predicate KnownStatuses(s: Sys, es: seq<Event>)
    requires ValidRun(s, es)
    decreases |es|
  {
    es != [] ==> !UnknownStatus(s, es[0]) && KnownStatuses(Next(s, es[0]), es[1..])
  }

  /** Queued jobs stay in JobRun status throughout a run if and only if UpdateStatus never gives a queued job a status
      other than the two known ones. */
  lemma {:induction false} NeverStaleExactly(s: Sys, es: seq<Event>)
    requires Safe(s) && ValidRun(s, es) && NoneStale(s.store)
    ensures NeverStale(s, es) <==> KnownStatuses(s, es)
    decreases |es|
  {
    if es != [] {
      forall id | id in s.store.jobs ensures s.store.jobs[id].id == id {
        assert Current(s, id);
      }
      StaleOnlyByUnknownStatus(s, es[0]);
      NextSafe(s, es[0]);
      if NoneStale(Next(s, es[0]).store) {
        NeverStaleExactly(Next(s, es[0]), es[1..]);
      }
    }
  }
}
