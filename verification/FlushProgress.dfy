/** The flush always comes to its end, and what was marked dirty before it is in the rows then. */
module FlushProgress {
  import opened Basics
  import opened WriteBehind
  import opened RemovedRows

  ghost function Remaining(s: Sys): nat {
    if s.phase == Draining then StepsLeft(s) else |s.held|
  }

  lemma NextMove(s: Sys) returns (e: Event)
    requires Safe(s) && s.failed.None? && s.phase != Idle
    ensures Enabled(s, e) && (Drains(e) || e.Save? || e.EndSave?)
    ensures var t := Next(s, e);
            && Safe(t) && t.failed.None?
            && match s.phase
               case Draining => t.phase == Saving || (t.phase == Draining && Remaining(t) < Remaining(s))
               case _ => t.phase == Idle || (t.phase == Saving && Remaining(t) < Remaining(s))
  {
    if s.phase == Draining {
      e := DrainMoves(s);
      DrainPhase(s, e);
    } else {
      e := if s.held == [] then EndSave else Save;
    }
    NextSafe(s, e);
  }

  lemma DrainPhase(s: Sys, e: Event)
    requires Enabled(s, e) && Drains(e) && s.phase == Draining
    ensures Next(s, e).phase == (if e.EndDrain? then Saving else Draining) && Next(s, e).failed == s.failed
  {
    match e
    case Claim(id) =>
    case _ =>
  }

  lemma FlushCons(e: Event, es: seq<Event>)
    requires FlushOnly(es) && (Drains(e) || e.StartDrain? || e.Save? || e.EndSave?)
    ensures FlushOnly([e] + es)
  {
  }

  lemma {:induction false} FlushEnds(s: Sys) returns (es: seq<Event>)
    requires Safe(s) && s.failed.None? && s.phase != Idle
    ensures ValidRun(s, es) && FlushOnly(es) && Run(s, es).phase == Idle
    decreases s.phase == Draining, Remaining(s)
  {
    var e := NextMove(s);
    var rest := [];
    if Next(s, e).phase != Idle {
      rest := FlushEnds(Next(s, e));
    }
    RunCons(s, e, rest);
    FlushCons(e, rest);
    es := [e] + rest;
  }

  /** No state of the table keeps a flush from ending: left alone, every pass of the loop gets back to waiting. */
  lemma FlushFinishes(s: Sys) returns (es: seq<Event>)
    requires Safe(s) && s.phase == Idle
    ensures es != [] && es[0] == StartDrain && ValidRun(s, es) && FlushOnly(es) && Run(s, es).phase == Idle
  {
    NextSafe(s, StartDrain);
    var rest := FlushEnds(Next(s, StartDrain));
    RunCons(s, StartDrain, rest);
    FlushCons(StartDrain, rest);
    es := [StartDrain] + rest;
  }

  /** MarkDirty brings a job's row up to date even when somebody deleted the row while the job was clean. */
  lemma MarkedComesBack(s: Sys, id: int) returns (es: seq<Event>)
    requires Safe(s) && s.phase == Idle && s.editing.None? && s.store.dirty <= s.store.jobs.Keys && id in s.store.jobs
    ensures ValidRun(s, [Mark(id)] + es) && FlushOnly(es)
    ensures var t := Run(s, [Mark(id)] + es);
            t.phase == Idle && t.store.dirty == {} && id in t.db && t.db[id] == s.store.jobs[id]
  {
    var m := Next(s, Mark(id));
    NextSafe(s, Mark(id));
    es := FlushFinishes(m);
    RunCons(s, Mark(id), es);
    FinalFlush(m, es, id);
  }

  /** Nothing but FlushJob and a deletion touches a row, and a FlushJob only that of the copy it was given. */
  lemma RowAfter(s: Sys, e: Event, id: int)
    requires Enabled(s, e)
    ensures var t := Next(s, e);
            if (e.Save? || e == Fail(true)) && s.held[0].job.id == id then id in t.db && t.db[id] == s.held[0].job
            else if e == Erase(id) then id !in t.db
            else (id in t.db <==> id in s.db) && (id in s.db ==> t.db[id] == s.db[id])
  {
    match e
    case Put(_) =>
    case Claim(_) =>
    case _ =>
  }
}
