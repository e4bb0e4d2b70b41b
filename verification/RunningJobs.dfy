/** The executor's set of running jobs, and Run and Stop on top of it.  Every method performs the steps of the
    run protocol that its name stands for; `s` is the protocol state it starts from. */
module RunningJobs {
  import opened Basics
  import opened RunProtocol
  import opened IdempotencyTable

  // A context with its cancel function; tid is the run it was made for.
  class Context {
    ghost const tid: nat
    var cancelled: bool

    constructor (ghost tid: nat)
      ensures this.tid == tid && !cancelled
    {
      this.tid := tid;
      cancelled := false;
    }
  }

  datatype RunningJob = RunningJob(cancel: Context, logID: int, jobID: int)

  class RunningJobSet {
    var jobs: map<int, RunningJob>
    var wg: int
    var drained: bool

    ghost function Contexts(): set<Context>
      reads this
    {
      set log | log in jobs :: jobs[log].cancel
    }

    /** The map, the WaitGroup and the flag are those of the protocol state; contexts are one per run. */
    ghost predicate Shows(s: Sys)
      reads this, Contexts()
    {
      && wg == s.wg && drained == s.drained && jobs.Keys == s.jobs.Keys
      && (forall log :: log in jobs ==> Job(jobs[log].jobID, jobs[log].cancel.tid) == s.jobs[log])
      && (forall log :: log in jobs ==> (jobs[log].cancel.cancelled <==> jobs[log].cancel.tid in s.cancelled))
      && (forall a, b :: a in jobs && b in jobs && jobs[a].cancel.tid == jobs[b].cancel.tid ==>
        jobs[a].cancel == jobs[b].cancel)
    }

    constructor ()
      ensures Shows(Initial())
    {
      jobs, wg, drained := map[], 0, false;
    }

    method Add(logID: int, jobID: int, cancel: Context, ghost s: Sys) returns (ok: bool)
      requires Shows(s) && Enabled(s, Event.Add(cancel.tid))
      requires s.runs[cancel.tid].log == logID && s.runs[cancel.tid].job == jobID
      requires cancel.cancelled <==> cancel.tid in s.cancelled
      requires forall log :: log in jobs ==> jobs[log].cancel.tid != cancel.tid
      modifies this
      ensures ok <==> !s.drained
      ensures Shows(Next(s, Event.Add(cancel.tid)))
    {
      if drained {
        return false;
      }
      wg := wg + 1;
      jobs := jobs[logID := RunningJob(cancel, logID, jobID)];
      ok := true;
    }

    /** The deletion under the lock, then wg.Done. */
    method Remove(logID: int, ghost s: Sys, ghost t: nat)
      requires Shows(s) && Enabled(s, Event.Delete(t)) && s.runs[t].log == logID
      requires forall log :: log in jobs && log != logID ==> jobs[log].cancel.tid != t
      modifies this
      ensures Enabled(Next(s, Event.Delete(t)), Event.Done(t)) && Shows(Next(Next(s, Event.Delete(t)), Event.Done(t)))
    {
      jobs := jobs - {logID};
      wg := wg - 1;
    }

    method Close(ghost s: Sys, ghost sid: nat) returns (n: nat)
      requires Shows(s) && Enabled(s, Event.Close(sid))
      modifies `drained
      ensures Shows(Next(s, Event.Close(sid))) && drained && n == |s.jobs|
    {
      drained := true;
      n := |jobs|;
      assert |jobs| == |jobs.Keys| && |s.jobs| == |s.jobs.Keys|;
    }

    method KillAll(ghost s: Sys, ghost sid: nat)
      requires Shows(s) && Enabled(s, Event.KillAll(sid))
      modifies Contexts()
      ensures Shows(Next(s, Event.KillAll(sid))) && forall c :: c in Contexts() ==> c.cancelled
    {
      var ids := jobs.Keys;
      while |ids| > 0
        invariant ids <= jobs.Keys
        invariant forall log :: log in jobs ==> log in ids || jobs[log].cancel.cancelled
        decreases |ids|
      {
        EmptyOrNot(ids);
        var id :| id in ids;
        jobs[id].cancel.cancelled := true;
        ids := ids - {id};
      }
      assert ids == {};
    }

    method Kill(logID: int, ghost s: Sys) returns (ok: bool)
      requires Shows(s)
      modifies Contexts()
      ensures ok <==> logID in s.jobs
      ensures Shows(Next(s, Event.Kill(logID)))
      ensures ok ==> logID in jobs && jobs[logID].cancel.cancelled
      ensures forall c :: c in Contexts() && !(ok && c == jobs[logID].cancel) ==> c.cancelled == old(c.cancelled)
    {
      if logID !in jobs {
        return false;
      }
      jobs[logID].cancel.cancelled := true;
      ok := true;
    }

    method IsIdle(jobID: int, ghost s: Sys) returns (idle: bool)
      requires Shows(s)
      ensures idle <==> IdleIn(s, jobID)
    {
      var ids := jobs.Keys;
      while |ids| > 0
        invariant ids <= jobs.Keys
        invariant forall log :: log in jobs ==> log in ids || jobs[log].jobID != jobID
        decreases |ids|
      {
        EmptyOrNot(ids);
        var id :| id in ids;
        if jobs[id].jobID == jobID {
          return false;
        }
        ids := ids - {id};
      }
      assert ids == {};
      idle := true;
    }
  }

  // The states differ only in what the objects do not show: where each run and each Stop is.
  ghost predicate Alike(s: Sys, u: Sys) {
    && u.wg == s.wg && u.drained == s.drained && u.stopped == s.stopped
    && u.jobs == s.jobs && u.cancelled == s.cancelled && u.records == s.records
  }

  datatype RunResult = Started | ErrRunnerStopped | ErrAlreadyRunning | AlreadySucceeded | AlreadyFailed

  /** Runner: Run, the goroutine body and Stop, each as the sequence of protocol steps it takes when nothing
      comes in between. */
  class Runner {
    const running: RunningJobSet
    const idempotency: Table
    var stopped: int
    const gracefulTimeout: int

    ghost predicate Shows(s: Sys)
      reads this, running, running.Contexts(), idempotency, idempotency.records.Values
    {
      && running.Shows(s) && idempotency.Valid() && idempotency.Shows(s)
      && (stopped == 1 <==> s.stopped) && (stopped == 0 || stopped == 1)
    }

    lemma ShowsAlike(s: Sys, u: Sys)
      requires Shows(s) && Alike(s, u)
      ensures Shows(u)
    {
    }

    constructor (ttl: int, gracefulTimeout: int)
      ensures Shows(Initial()) && fresh(running) && fresh(idempotency)
    {
      running := new RunningJobSet();
      idempotency := new Table(ttl);
      stopped := 0;
      this.gracefulTimeout := gracefulTimeout;
    }

    /** What the answers of Run come to: stopped runners refuse, a record answers for itself, a drained runner refuses
        and leaves a failure, and otherwise the LogID is running now. */
    static lemma RunAnswers(s: Sys, t: nat)
      requires At(s, t, Called)
      ensures var (u, r), log := RunEnd(s, t), s.runs[t].log;
              if s.stopped then r == ErrRunnerStopped && u.records == s.records && u.wg == s.wg
              else if log in s.records then
                && r == (match s.records[log]
                         case Running => ErrAlreadyRunning
                         case Success => AlreadySucceeded
                         case Failed => AlreadyFailed)
                && u.records == s.records && u.wg == s.wg
              else if s.drained then r == ErrRunnerStopped && u.records == s.records[log := Failed] && u.wg == s.wg
              else r == Started && u.records == s.records[log := Running] && u.wg == s.wg + 1
                   && log in u.jobs && u.jobs[log] == Job(s.runs[t].job, t)
    {
    }

    // What Run answers when there is a record.
    static function Reported(state: RecordState): RunResult {
      match state
      case Running => ErrAlreadyRunning
      case Success => AlreadySucceeded
      case Failed => AlreadyFailed
    }

    /** What Run leaves behind, and what it answers: up to the idempotency check, and from there on. */
    static ghost function RunEnd(s: Sys, t: nat): (Sys, RunResult)
      requires At(s, t, Called)
    {
      var s1 := Next(s, CheckStopped(t));
      if s.stopped then (s1, ErrRunnerStopped) else AcquireEnd(s1, t)
    }

    static ghost function LaunchEnd(s: Sys, t: nat): (Sys, RunResult)
      requires At(s, t, Acquired)
    {
      var s1 := Next(s, Event.Add(t));
      if s.drained then (Next(s1, Rollback(t)), ErrRunnerStopped) else (s1, Started)
    }

    // add, and the rollback if it refuses.
    method Launch(logID: int, jobID: int, now: int, ghost s: Sys, ghost t: nat) returns (r: RunResult)
      requires Shows(s) && At(s, t, Acquired) && s.runs[t].log == logID && s.runs[t].job == jobID && t !in s.cancelled
      requires IsRunning(s, logID) && forall log :: log in s.jobs ==> s.jobs[log].tid != t
      modifies running, idempotency.records[logID]
      ensures Shows(LaunchEnd(s, t).0) && r == LaunchEnd(s, t).1 && r != AlreadyFailed
    {
      var cancel := new Context(t);
      var ok := running.Add(logID, jobID, cancel, s);
      if !ok {
        Undo(logID, cancel, now, Next(s, Event.Add(t)), t);
        return ErrRunnerStopped;
      }
      return Started;
    }

    // The rollback: cancel, and complete the record.
    method Undo(logID: int, cancel: Context, now: int, ghost s: Sys, ghost t: nat)
      requires Shows(s) && At(s, t, Refused) && s.runs[t].log == logID && cancel.tid == t
      requires IsRunning(s, logID) && forall log :: log in s.jobs ==> s.jobs[log].tid != t
      modifies cancel, idempotency.records[logID]
      ensures Shows(Next(s, Rollback(t)))
    {
      cancel.cancelled := true;
      idempotency.Complete(logID, Some("runner stopped"), now, s);
    }

    static lemma NotListed(s: Sys, t: nat)
      requires Good(s) && At(s, t, Called)
      ensures forall log :: log in s.jobs ==> s.jobs[log].tid != t
    {
      forall log | log in s.jobs ensures s.jobs[log].tid != t {
        assert EntryMapped(s, log);
      }
    }

    // `err` is the error that comes with AlreadyFailed: the record's own.
    method Run(logID: int, jobID: int, now: int, ghost s: Sys, ghost t: nat) returns (r: RunResult, err: Option<string>)
      requires Shows(s) && Good(s) && At(s, t, Called) && t !in s.cancelled
      requires s.runs[t].log == logID && s.runs[t].job == jobID
      modifies running, idempotency
      ensures Shows(RunEnd(s, t).0) && r == RunEnd(s, t).1
      ensures err == if r == AlreadyFailed then old(RecordedError(logID)) else None
    {
      ShowsAlike(s, Next(s, CheckStopped(t)));
      if stopped == 1 {
        return ErrRunnerStopped, None;
      }
      NotListed(s, t);
      r, err := Acquire(logID, jobID, now, Next(s, CheckStopped(t)), t);
    }

    static ghost function AcquireEnd(s: Sys, t: nat): (Sys, RunResult)
      requires At(s, t, Checked)
    {
      var log := s.runs[t].log;
      var s1 := Next(s, Event.TryAcquire(t));
      if log in s.records then (s1, Reported(s.records[log])) else LaunchEnd(s1, t)
    }

    ghost function RecordedError(logID: int): Option<string>
      reads idempotency, idempotency.records.Values
    {
      if logID in idempotency.records then idempotency.records[logID].err else None
    }

    // From the idempotency check on.
    method Acquire(logID: int, jobID: int, now: int, ghost s: Sys, ghost t: nat)
      returns (r: RunResult, err: Option<string>)
      requires Shows(s) && At(s, t, Checked) && t !in s.cancelled
      requires forall log :: log in s.jobs ==> s.jobs[log].tid != t
      requires s.runs[t].log == logID && s.runs[t].job == jobID
      modifies running, idempotency
      ensures Shows(AcquireEnd(s, t).0) && r == AcquireEnd(s, t).1
      ensures err == if r == AlreadyFailed then old(RecordedError(logID)) else None
    {
      var rec, acquired := idempotency.TryAcquire(logID, now, s, t);
      if !acquired {
        return Reported(rec.state), if rec.state == Failed then rec.err else None;
      }
      err := None;
      r := Launch(logID, jobID, now, Next(s, Event.TryAcquire(t)), t);
    }

    // The state when the handler has answered.
    ghost function Answered(s: Sys, t: nat, ok: bool): (r: Sys)
      requires At(s, t, Added)
      ensures At(r, t, Handled(ok)) && r == s.(runs := r.runs, starts := r.starts)
      ensures forall u :: u != t ==> (u in r.runs <==> u in s.runs) && (u in s.runs ==> r.runs[u] == s.runs[u])
      ensures r.runs[t].log == s.runs[t].log
    {
      Next(Next(s, Start(t)), Finish(t, ok))
    }

    /** The state when the goroutine has ended. */
    ghost function BodyEnd(s: Sys, t: nat, ok: bool): Sys
      requires At(s, t, Added)
    {
      Next(Next(Next(Answered(s, t, ok), Event.Complete(t)), Event.Delete(t)), Event.Done(t))
    }

    // Complete, on both sides.
    method Settle(logID: int, err: Option<string>, now: int, ghost s: Sys, ghost t: nat)
      requires Shows(s) && At(s, t, Handled(err == None)) && s.runs[t].log == logID
      modifies idempotency.records.Values
      ensures Shows(Next(s, Event.Complete(t)))
      ensures IsRunning(s, logID) ==> Says(logID, err)
    {
      idempotency.Complete(logID, err, now, s);
    }

    // The record of this LogID holds the handler's answer.
    ghost predicate Says(logID: int, err: Option<string>)
      reads idempotency, idempotency.records.Values
    {
      && logID in idempotency.records && idempotency.records[logID].err == err
      && idempotency.records[logID].state == if err == None then Success else Failed
    }

    // The deferred remove, on both sides.
    method Leave(logID: int, ghost s: Sys, ghost t: nat)
      requires Shows(s) && At(s, t, Completed) && s.runs[t].log == logID
      requires forall log :: log in s.jobs && log != logID ==> s.jobs[log].tid != t
      modifies running
      ensures Shows(Next(Next(s, Event.Delete(t)), Event.Done(t)))
    {
      running.Remove(logID, s, t);
    }

    static lemma ListedOnce(s: Sys, t: nat)
      requires Mapped(s) && t in s.runs
      ensures forall log :: log in s.jobs && log != s.runs[t].log ==> s.jobs[log].tid != t
    {
      forall log | log in s.jobs && log != s.runs[t].log ensures s.jobs[log].tid != t {
        assert EntryMapped(s, log);
      }
    }

    /** The goroutine: the handler answers err; then Complete and the deferred remove. */
    method Work(logID: int, err: Option<string>, now: int, ghost s: Sys, ghost t: nat)
      requires Shows(s) && Mapped(s) && At(s, t, Added) && s.runs[t].log == logID
      modifies running, idempotency.records.Values
      ensures Shows(BodyEnd(s, t, err == None))
      ensures IsRunning(s, logID) ==> Says(logID, err)
    {
      ghost var s2 := Answered(s, t, err == None);
      ShowsAlike(s, s2);
      ListedOnce(s, t);
      WindUp(logID, err, now, s2, t);
    }

    // What the goroutine does once its handler has answered.
    method WindUp(logID: int, err: Option<string>, now: int, ghost s: Sys, ghost t: nat)
      requires Shows(s) && At(s, t, Handled(err == None)) && s.runs[t].log == logID
      requires forall log :: log in s.jobs && log != logID ==> s.jobs[log].tid != t
      modifies running, idempotency.records.Values
      ensures Shows(Next(Next(Next(s, Event.Complete(t)), Event.Delete(t)), Event.Done(t)))
      ensures IsRunning(s, logID) ==> Says(logID, err)
    {
      Settle(logID, err, now, s, t);
      Leave(logID, Next(s, Event.Complete(t)), t);
    }

    // Stop up to the waiting.
    ghost function Down(s: Sys, sid: nat): (r: Sys)
      requires sid !in s.stops && !s.stopped
      ensures StopAt(r, sid, Closed) && r == s.(stopped := true, drained := true, stops := r.stops)
    {
      Next(Next(s, Cas(sid)), Event.Close(sid))
    }

    ghost function ForceEnd(s: Sys, sid: nat, clean: bool): (r: Sys)
      requires Enabled(s, Event.KillAll(sid)) && (clean ==> s.wg == 0)
      ensures Alike(Next(s, Event.KillAll(sid)), r)
    {
      var s1 := Next(s, Event.KillAll(sid));
      if clean then Next(Next(s1, WaitTrue(sid)), Return(sid)) else Next(s1, WaitFalse(sid))
    }

    // The first wait: over, or timed out.
    ghost function Waited(s: Sys, sid: nat, clean: bool): (r: Sys)
      requires StopAt(s, sid, Closed) && (clean ==> s.wg == 0)
      ensures Alike(s, r) && (!clean ==> Enabled(r, Event.KillAll(sid)))
    {
      if clean then Next(Next(s, WaitTrue(sid)), Return(sid)) else Next(s, WaitFalse(sid))
    }

    /** Where Stop ends; `first` and `second` say whether each waitDone saw the count reach zero in time. */
    ghost function StopEnd(s: Sys, sid: nat, first: bool, second: bool): Sys
      requires sid !in s.stops && (first || second ==> s.wg == 0)
    {
      if s.stopped then Next(s, Cas(sid))
      else
        var s2 := Down(s, sid);
        if gracefulTimeout <= 0 then ForceEnd(s2, sid, second)
        else if first then Waited(s2, sid, true)
        else ForceEnd(Waited(s2, sid, false), sid, second)
    }

    method CloseDown(ghost s: Sys, ghost sid: nat)
      requires Shows(s) && sid !in s.stops && !s.stopped
      modifies this, running`drained
      ensures Shows(Down(s, sid))
    {
      stopped := 1;
      var _ := running.Close(Next(s, Cas(sid)), sid);
    }

    // killAll, and a second wait whose result is not looked at.
    method Force(clean: bool, ghost s: Sys, ghost sid: nat)
      requires Shows(s) && Enabled(s, Event.KillAll(sid)) && (clean ==> s.wg == 0)
      modifies running.Contexts()
      ensures Shows(ForceEnd(s, sid, clean)) && AllKilled()
    {
      running.KillAll(s, sid);
      ShowsAlike(Next(s, Event.KillAll(sid)), ForceEnd(s, sid, clean));
    }

    method Stop(first: bool, second: bool, ghost s: Sys, ghost sid: nat)
      requires Shows(s) && sid !in s.stops && (first || second ==> running.wg == 0)
      modifies this, running`drained, running.Contexts()
      ensures Shows(StopEnd(s, sid, first, second))
      ensures stopped == 1 && (old(stopped) == 0 ==> running.drained)
      ensures old(stopped) == 0 && (gracefulTimeout <= 0 || !first) ==> AllKilled()
      ensures old(stopped) == 1 || (gracefulTimeout > 0 && first) ==>
        forall c :: c in running.Contexts() ==> c.cancelled == old(c.cancelled)
    {
      if stopped == 0 {
        CloseDown(s, sid);
        AfterClose(first, second, Down(s, sid), sid);
      } else {
        ShowsAlike(s, Next(s, Cas(sid)));
      }
    }

    ghost predicate AllKilled()
      reads running, running.Contexts()
    {
      forall c :: c in running.Contexts() ==> c.cancelled
    }

    // Waiting, and killing if that is not enough.
    method AfterClose(first: bool, second: bool, ghost s: Sys, ghost sid: nat)
      requires Shows(s) && StopAt(s, sid, Closed) && (first || second ==> s.wg == 0)
      modifies running.Contexts()
      ensures Shows(if gracefulTimeout <= 0 then ForceEnd(s, sid, second)
                    else if first then Waited(s, sid, true) else ForceEnd(Waited(s, sid, false), sid, second))
      ensures gracefulTimeout <= 0 || !first ==> AllKilled()
      ensures gracefulTimeout > 0 && first ==>
        forall c :: c in running.Contexts() ==> c.cancelled == old(c.cancelled)
    {
      if gracefulTimeout <= 0 {
        Force(second, s, sid);
      } else if first {
        ShowsAlike(s, Waited(s, sid, true));
      } else {
        ShowsAlike(s, Waited(s, sid, false));
        Force(second, Waited(s, sid, false), sid);
      }
    }
  }
}
