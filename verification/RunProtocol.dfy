/** The executor's run and drain protocol: any number of Run and Stop calls, interleaved at every lock region
    and atomic access.  A run is a thread from the call of Run to the end of its goroutine. */
module RunProtocol {

  datatype Pc =
    | Called          // in Run, before the stopped check
    | Checked         // past the stopped check
    | Acquired        // TryAcquire granted, before add
    | Refused         // add said no, before the rollback
    | Added           // add said yes, the handler has not started
    | Handling        // the handler is running
    | Handled(ok: bool)
    | Completed       // the record is completed, the map entry still there
    | Deleted         // out of the map, before wg.Done
    | Ended

  // gen tells the successive records of one LogID apart.
  datatype Thread = Thread(log: int, job: int, gen: nat, pc: Pc)

  datatype RecordState = Running | Success | Failed

  datatype Job = Job(job: int, tid: nat)

  datatype StopPc =
    | Won               // the CAS succeeded
    | Closed            // close() has run
    | TimedOut          // the first waitDone returned false
    | Killed            // killAll has run
    | Clean             // a waitDone returned true
    | Returned(clean: bool)

  datatype HandlerStart = HandlerStart(log: int, gen: nat)

  datatype Sys = Sys(stopped: bool, drained: bool, wg: int, jobs: map<int, Job>, records: map<int, RecordState>,
                     cancelled: set<nat>, runs: map<nat, Thread>, stops: map<nat, StopPc>,
                     gens: map<int, nat>, starts: seq<HandlerStart>)

  datatype Event =
    | Call(t: nat, log: int, job: int)
    | CheckStopped(t: nat)
    | TryAcquire(t: nat)
    | Add(t: nat)
    | Rollback(t: nat)
    | Start(t: nat)
    | Finish(t: nat, ok: bool)
    | Complete(t: nat)
    | Delete(t: nat)
    | Done(t: nat)
    | Cas(sid: nat)
    | Close(sid: nat)
    | WaitTrue(sid: nat)
    | WaitFalse(sid: nat)
    | KillAll(sid: nat)
    | Return(sid: nat)
    | Kill(log: int)
    | Gc(logs: set<int>)
    | ForceDelete(log: int)

  predicate At(s: Sys, t: nat, pc: Pc) {
    t in s.runs && s.runs[t].pc == pc
  }

  predicate StopAt(s: Sys, sid: nat, pc: StopPc) {
    sid in s.stops && s.stops[sid] == pc
  }

  predicate IsRunning(s: Sys, log: int) {
    log in s.records && s.records[log] == Running
  }

  predicate Enabled(s: Sys, e: Event) {
    match e
    case Call(t, _, _) => t !in s.runs
    case CheckStopped(t) => At(s, t, Called)
    case TryAcquire(t) => At(s, t, Checked)
    case Add(t) => At(s, t, Acquired)
    case Rollback(t) => At(s, t, Refused)
    case Start(t) => At(s, t, Added)
    case Finish(t, _) => At(s, t, Handling)
    case Complete(t) => t in s.runs && s.runs[t].pc.Handled?
    case Delete(t) => At(s, t, Completed)
    case Done(t) => At(s, t, Deleted)
    case Cas(sid) => sid !in s.stops
    case Close(sid) => StopAt(s, sid, Won)
    // wg.Wait() returns once the count is zero; the timer may win at any time.
    case WaitTrue(sid) => (StopAt(s, sid, Closed) || StopAt(s, sid, Killed)) && s.wg == 0
    case WaitFalse(sid) => StopAt(s, sid, Closed) || StopAt(s, sid, Killed)
    // With a zero timeout killAll follows close at once.
    case KillAll(sid) => StopAt(s, sid, TimedOut) || StopAt(s, sid, Closed)
    case Return(sid) => StopAt(s, sid, Clean)
    case Kill(_) => true
    // Only completed records have an expiry time.
    case Gc(logs) => forall log :: log in logs && log in s.records ==> s.records[log] != Running
    case ForceDelete(_) => true
  }

  function Goto(s: Sys, t: nat, pc: Pc): Sys
    requires t in s.runs
  {
    s.(runs := s.runs[t := s.runs[t].(pc := pc)])
  }

  // Table.Complete: only a Running record changes.
  function CompleteRecord(s: Sys, log: int, ok: bool): Sys {
    if IsRunning(s, log) then s.(records := s.records[log := if ok then Success else Failed]) else s
  }

  function Next(s: Sys, e: Event): Sys
    requires Enabled(s, e)
  {
    match e
    case Call(t, log, job) => s.(runs := s.runs[t := Thread(log, job, 0, Called)])
    case CheckStopped(t) => Goto(s, t, if s.stopped then Ended else Checked)
    case TryAcquire(t) =>
      var log := s.runs[t].log;
      if log in s.records then Goto(s, t, Ended)
      else
        var gen := (if log in s.gens then s.gens[log] else 0) + 1;
        s.(records := s.records[log := Running], gens := s.gens[log := gen],
           runs := s.runs[t := s.runs[t].(pc := Acquired, gen := gen)])
    case Add(t) =>
      if s.drained then Goto(s, t, Refused)
      else Goto(s, t, Added).(wg := s.wg + 1, jobs := s.jobs[s.runs[t].log := Job(s.runs[t].job, t)])
    case Rollback(t) => CompleteRecord(Goto(s, t, Ended), s.runs[t].log, false).(cancelled := s.cancelled + {t})
    case Start(t) => Goto(s, t, Handling).(starts := s.starts + [HandlerStart(s.runs[t].log, s.runs[t].gen)])
    case Finish(t, ok) => Goto(s, t, Handled(ok))
    case Complete(t) => CompleteRecord(Goto(s, t, Completed), s.runs[t].log, s.runs[t].pc.ok)
    case Delete(t) => Goto(s, t, Deleted).(jobs := s.jobs - {s.runs[t].log})
    case Done(t) => Goto(s, t, Ended).(wg := s.wg - 1, cancelled := s.cancelled + {t})
    case Cas(sid) => s.(stopped := true, stops := s.stops[sid := if s.stopped then Returned(false) else Won])
    case Close(sid) => s.(drained := true, stops := s.stops[sid := Closed])
    case WaitTrue(sid) => s.(stops := s.stops[sid := Clean])
    case WaitFalse(sid) => s.(stops := s.stops[sid := if s.stops[sid] == Killed then Returned(false) else TimedOut])
    case KillAll(sid) => s.(cancelled := s.cancelled + Listed(s), stops := s.stops[sid := Killed])
    case Return(sid) => s.(stops := s.stops[sid := Returned(true)])
    case Kill(log) => s.(cancelled := s.cancelled + if log in s.jobs then {s.jobs[log].tid} else {})
    case Gc(logs) => s.(records := s.records - logs)
    case ForceDelete(log) => s.(records := s.records - {log})
  }

  // The runs whose entries are in the map.
  function Listed(s: Sys): set<nat> {
    set log | log in s.jobs :: s.jobs[log].tid
  }

  ghost predicate ValidRun(s: Sys, es: seq<Event>)
    decreases |es|
  {
    es == [] || (Enabled(s, es[0]) && ValidRun(Next(s, es[0]), es[1..]))
  }

  ghost function Run(s: Sys, es: seq<Event>): Sys
    requires ValidRun(s, es)
    decreases |es|
  {
    if es == [] then s else Run(Next(s, es[0]), es[1..])
  }

  function Initial(): Sys {
    Sys(false, false, 0, map[], map[], {}, map[], map[], map[], [])
  }

  // ---------- Counting: the WaitGroup ----------

  // Between a successful add and wg.Done.
  predicate Holds(pc: Pc) {
    pc.Added? || pc.Handling? || pc.Handled? || pc.Completed? || pc.Deleted?
  }

  function Holders(s: Sys): set<nat> {
    set t | t in s.runs && Holds(s.runs[t].pc)
  }

  predicate PastClose(pc: StopPc) {
    !pc.Won? && pc != Returned(false)
  }

  /** The WaitGroup count is the number of runs between add and Done; a Stop that has closed has drained, and
      one whose waitDone returned true leaves no such run. */
  ghost predicate Counted(s: Sys) {
    && s.wg == |Holders(s)|
    && (forall sid :: sid in s.stops && PastClose(s.stops[sid]) ==> s.drained)
    && (forall sid :: sid in s.stops && (s.stops[sid].Clean? || s.stops[sid] == Returned(true)) ==> Holders(s) == {})
  }

  // One thread moves: it joins the holders, leaves them, or neither.
  lemma HoldersMove(s: Sys, s': Sys, t: nat)
    requires s'.runs.Keys == s.runs.Keys + {t}
    requires forall u :: u in s.runs && u != t ==> s'.runs[u] == s.runs[u]
    ensures Holders(s') == if Holds(s'.runs[t].pc) then Holders(s) + {t} else Holders(s) - {t}
  {
  }

  predicate OfRun(e: Event) {
    || e.Call? || e.CheckStopped? || e.TryAcquire? || e.Add? || e.Rollback?
    || e.Start? || e.Finish? || e.Complete? || e.Delete? || e.Done?
  }

  predicate Joins(s: Sys, e: Event) {
    e.Add? && !s.drained
  }

  ghost predicate HoldsAt(s: Sys, t: nat) {
    t in s.runs && Holds(s.runs[t].pc)
  }

  lemma Mover(s: Sys, e: Event)
    requires Enabled(s, e) && OfRun(e)
    ensures Next(s, e).runs.Keys == s.runs.Keys + {e.t}
    ensures forall u :: u in s.runs && u != e.t ==> Next(s, e).runs[u] == s.runs[u]
  {
    match e
    case Call(_, _, _) =>
    case TryAcquire(_) =>
    case Rollback(_) =>
    case Complete(_) =>
    case _ =>
  }

  lemma MoverHolds(s: Sys, e: Event)
    requires Enabled(s, e) && OfRun(e)
    ensures HoldsAt(Next(s, e), e.t) <==> Joins(s, e) || (HoldsAt(s, e.t) && !e.Done?)
    ensures Joins(s, e) ==> !HoldsAt(s, e.t)
    ensures e.Done? || e.Start? ==> HoldsAt(s, e.t)
  {
    match e
    case Call(_, _, _) =>
    case TryAcquire(_) =>
    case Add(_) =>
    case Rollback(_) =>
    case Complete(_) =>
    case Done(_) =>
    case _ =>
  }

  lemma NextHolders(s: Sys, e: Event)
    requires Enabled(s, e)
    ensures Holders(Next(s, e)) ==
            if Joins(s, e) then Holders(s) + {e.t} else if e.Done? then Holders(s) - {e.t} else Holders(s)
    ensures Joins(s, e) ==> e.t !in Holders(s)
    ensures e.Done? || e.Start? ==> e.t in Holders(s)
  {
    if OfRun(e) {
      Mover(s, e);
      MoverHolds(s, e);
      HoldersMove(s, Next(s, e), e.t);
    }
  }

  lemma NextWg(s: Sys, e: Event)
    requires Enabled(s, e)
    ensures Next(s, e).wg == if Joins(s, e) then s.wg + 1 else if e.Done? then s.wg - 1 else s.wg
    ensures s.drained ==> Next(s, e).drained
    ensures !e.Start? ==> Next(s, e).starts == s.starts
  {
  }

  lemma NextStops(s: Sys, e: Event, sid: nat)
    requires Counted(s) && Enabled(s, e) && sid in Next(s, e).stops
    ensures PastClose(Next(s, e).stops[sid]) ==> Next(s, e).drained
    ensures Next(s, e).stops[sid].Clean? || Next(s, e).stops[sid] == Returned(true) ==> !Joins(s, e) && Holders(s) == {}
  {
    assert e.WaitTrue? ==> |Holders(s)| == 0;
  }

  lemma NextCounted(s: Sys, e: Event)
    requires Counted(s) && Enabled(s, e)
    ensures Counted(Next(s, e))
    ensures s.drained ==> Next(s, e).drained && Holders(Next(s, e)) <= Holders(s)
    ensures Holders(s) == {} ==> Next(s, e).starts == s.starts
  {
    var s' := Next(s, e);
    NextHolders(s, e);
    NextWg(s, e);
    forall sid | sid in s'.stops
      ensures PastClose(s'.stops[sid]) ==> s'.drained
      ensures s'.stops[sid].Clean? || s'.stops[sid] == Returned(true) ==> Holders(s') == {}
    {
      NextStops(s, e, sid);
    }
  }

  lemma {:induction false} RunCounted(s: Sys, es: seq<Event>)
    requires Counted(s) && ValidRun(s, es)
    ensures Counted(Run(s, es))
    decreases |es|
  {
    if es != [] {
      NextCounted(s, es[0]);
      RunCounted(Next(s, es[0]), es[1..]);
    }
  }

  /** Once close has run, the WaitGroup count never rises and no run joins those it counts. */
  lemma {:induction false} ClosedNeverRises(s: Sys, es: seq<Event>)
    requires Counted(s) && s.drained && ValidRun(s, es)
    ensures Run(s, es).wg <= s.wg && Holders(Run(s, es)) <= Holders(s)
    decreases |es|
  {
    if es != [] {
      NextCounted(s, es[0]);
      ClosedNeverRises(Next(s, es[0]), es[1..]);
    }
    RunCounted(s, es);
    SubsetCount(Holders(Run(s, es)), Holders(s));
  }

  lemma SubsetCount(a: set<nat>, b: set<nat>)
    requires a <= b
    ensures |a| <= |b|
  {
    assert b == a + (b - a);
  }

  /** Drain safety: after a waitDone has returned true, no handler is running, and none ever starts again,
      whatever runs had passed the stopped check before. */
  lemma {:induction false} CleanMeansSilent(s: Sys, es: seq<Event>, sid: nat)
    requires Counted(s) && StopAt(s, sid, Clean) && ValidRun(s, es)
    ensures Run(s, es).starts == s.starts
    ensures forall t :: t in Run(s, es).runs ==> !Holds(Run(s, es).runs[t].pc)
    decreases |es|
  {
    assert Holders(s) == {} && s.drained;
    if es != [] {
      NextCounted(s, es[0]);
      if es[0].Return? && es[0].sid == sid {
        ReturnedSilent(Next(s, es[0]), es[1..]);
      } else {
        CleanMeansSilent(Next(s, es[0]), es[1..], sid);
      }
    }
    ClosedNeverRises(s, es);
    forall t | t in Run(s, es).runs ensures !Holds(Run(s, es).runs[t].pc) {
      assert t !in Holders(Run(s, es));
    }
  }

  lemma {:induction false} ReturnedSilent(s: Sys, es: seq<Event>)
    requires Counted(s) && s.drained && Holders(s) == {} && ValidRun(s, es)
    ensures Run(s, es).starts == s.starts
    decreases |es|
  {
    if es != [] {
      NextCounted(s, es[0]);
      ReturnedSilent(Next(s, es[0]), es[1..]);
    }
  }

  /** The same for whole histories: whatever has happened since the runner was made, once a Stop's waitDone has
      returned true, no handler is running at any later point and none has started since. */
  lemma DrainSafety(es: seq<Event>, later: seq<Event>, sid: nat)
    requires ValidRun(Initial(), es) && StopAt(Run(Initial(), es), sid, Clean)
    requires ValidRun(Run(Initial(), es), later)
    ensures var s, s' := Run(Initial(), es), Run(Run(Initial(), es), later);
            s'.starts == s.starts && s'.wg == 0 && forall t :: t in s'.runs ==> !s'.runs[t].pc.Handling?
  {
    assert Holders(Initial()) == {};
    RunCounted(Initial(), es);
    CleanMeansSilent(Run(Initial(), es), later, sid);
    var s' := Run(Run(Initial(), es), later);
    RunCounted(Run(Initial(), es), later);
    assert Holders(s') == {};
  }

  // ---------- Ownership: the idempotency table ----------

  // Between a successful TryAcquire and Complete.
  predicate Owns(pc: Pc) {
    pc.Acquired? || pc.Refused? || pc.Added? || pc.Handling? || pc.Handled?
  }

  predicate OwnsLog(s: Sys, t: nat, log: int) {
    t in s.runs && s.runs[t].log == log && Owns(s.runs[t].pc)
  }

  // The handler of this run has not started yet.
  predicate BeforeStart(s: Sys, t: nat) {
    t in s.runs && (s.runs[t].pc.Acquired? || s.runs[t].pc.Refused? || s.runs[t].pc.Added?)
  }

  function Tag(s: Sys, t: nat): HandlerStart
    requires t in s.runs
  {
    HandlerStart(s.runs[t].log, s.runs[t].gen)
  }

  ghost predicate OwnerHolds(s: Sys, t: nat)
    requires t in s.runs
  {
    var log := s.runs[t].log;
    IsRunning(s, log) && log in s.gens && s.gens[log] == s.runs[t].gen
  }

  ghost predicate Owned(s: Sys) {
    && (forall t :: t in s.runs && Owns(s.runs[t].pc) ==> OwnerHolds(s, t))
    && (forall t, u, log :: OwnsLog(s, t, log) && OwnsLog(s, u, log) ==> t == u)
    && (forall log :: IsRunning(s, log) ==> exists t :: OwnsLog(s, t, log))
  }

  /** Every record generation has had at most one handler start, and none before its run reaches it. */
  ghost predicate StartedOnce(s: Sys) {
    && (forall i, k :: 0 <= i < k < |s.starts| ==> s.starts[i] != s.starts[k])
    && (forall x :: x in s.starts ==> x.log in s.gens && x.gen <= s.gens[x.log])
    && (forall t :: BeforeStart(s, t) ==> Tag(s, t) !in s.starts)
  }

  predicate Tame(s: Sys, e: Event) {
    !(e.ForceDelete? && IsRunning(s, e.log))
  }

  lemma AcquireKeepsOwned(s: Sys, t: nat)
    requires Owned(s) && Enabled(s, TryAcquire(t))
    ensures Owned(Next(s, TryAcquire(t)))
  {
    var s' := Next(s, TryAcquire(t));
    var log := s.runs[t].log;
    var granted := log !in s.records;
    forall u, l ensures OwnsLog(s', u, l) <==> OwnsLog(s, u, l) || (granted && u == t && l == log) {
    }
    forall u | OwnsLog(s, u, log) ensures !granted {
      assert OwnerHolds(s, u);
    }
    forall u | u in s'.runs && Owns(s'.runs[u].pc) ensures OwnerHolds(s', u) {
      assert OwnsLog(s', u, s'.runs[u].log);
    }
    forall l | IsRunning(s', l) ensures exists u :: OwnsLog(s', u, l) {
      if granted && l == log {
        assert OwnsLog(s', t, log);
      } else {
        assert IsRunning(s, l);
        var u :| OwnsLog(s, u, l);
        assert OwnsLog(s', u, l);
      }
    }
  }

  lemma CompleteKeepsOwned(s: Sys, e: Event)
    requires Owned(s) && Enabled(s, e) && (e.Complete? || e.Rollback?)
    ensures Owned(Next(s, e))
  {
    var s' := Next(s, e);
    var log := s.runs[e.t].log;
    assert OwnsLog(s, e.t, log);
    forall u, l | OwnsLog(s', u, l) ensures OwnsLog(s, u, l) && l != log {
      assert OwnsLog(s, u, l);
    }
    forall u | u in s'.runs && Owns(s'.runs[u].pc) ensures OwnerHolds(s', u) {
      assert OwnsLog(s', u, s'.runs[u].log);
    }
    forall l | IsRunning(s', l) ensures exists u :: OwnsLog(s', u, l) {
      assert IsRunning(s, l);
      var u :| OwnsLog(s, u, l);
      assert OwnsLog(s', u, l);
    }
  }

  // The other moves of a run stay on one side of the line.
  lemma MoveKeepsOwned(s: Sys, e: Event)
    requires Owned(s) && Enabled(s, e) && OfRun(e) && !e.TryAcquire? && !e.Complete? && !e.Rollback?
    ensures Owned(Next(s, e))
  {
    var s' := Next(s, e);
    forall u, l ensures OwnsLog(s', u, l) <==> OwnsLog(s, u, l) {
    }
    forall u | u in s'.runs && Owns(s'.runs[u].pc) ensures OwnerHolds(s', u) {
      assert OwnsLog(s, u, s'.runs[u].log);
    }
    forall l | IsRunning(s', l) ensures exists u :: OwnsLog(s', u, l) {
      assert IsRunning(s, l);
      var u :| OwnsLog(s, u, l);
      assert OwnsLog(s', u, l);
    }
  }

  lemma RestKeepsOwned(s: Sys, e: Event)
    requires Owned(s) && Enabled(s, e) && !OfRun(e) && Tame(s, e)
    ensures Owned(Next(s, e))
  {
    var s' := Next(s, e);
    forall l ensures IsRunning(s', l) <==> IsRunning(s, l) {
    }
    forall u, l ensures OwnsLog(s', u, l) <==> OwnsLog(s, u, l) {
    }
    forall u | u in s'.runs && Owns(s'.runs[u].pc) ensures OwnerHolds(s', u) {
      assert OwnerHolds(s, u);
    }
    forall l | IsRunning(s', l) ensures exists u :: OwnsLog(s', u, l) {
      assert IsRunning(s, l);
      var u :| OwnsLog(s, u, l);
      assert OwnsLog(s', u, l);
    }
  }

  lemma NextOwned(s: Sys, e: Event)
    requires Owned(s) && Enabled(s, e) && Tame(s, e)
    ensures Owned(Next(s, e))
  {
    match e
    case TryAcquire(t) => AcquireKeepsOwned(s, t);
    case Complete(_) => CompleteKeepsOwned(s, e);
    case Rollback(_) => CompleteKeepsOwned(s, e);
    case _ =>
      if OfRun(e) {
        MoveKeepsOwned(s, e);
      } else {
        RestKeepsOwned(s, e);
      }
  }

  /** Deleting a record by force keeps "Running means exactly one run between TryAcquire and Complete" if and
      only if the record is not Running. */
  lemma ForceDeleteExactly(s: Sys, log: int)
    requires Owned(s)
    ensures Owned(Next(s, ForceDelete(log))) <==> !IsRunning(s, log)
  {
    if IsRunning(s, log) {
      var t :| OwnsLog(s, t, log);
      assert !OwnerHolds(Next(s, ForceDelete(log)), t);
    } else {
      RestKeepsOwned(s, ForceDelete(log));
    }
  }

  lemma StartKeepsStartedOnce(s: Sys, t: nat)
    requires Owned(s) && StartedOnce(s) && Enabled(s, Start(t))
    ensures StartedOnce(Next(s, Start(t)))
  {
    var s' := Next(s, Start(t));
    assert BeforeStart(s, t) && Tag(s, t) !in s.starts && OwnerHolds(s, t) && OwnsLog(s, t, s.runs[t].log);
    forall u | BeforeStart(s', u) ensures Tag(s', u) !in s'.starts {
      assert BeforeStart(s, u) && u != t && OwnsLog(s, u, s.runs[u].log);
    }
  }

  lemma AcquireKeepsStartedOnce(s: Sys, t: nat)
    requires StartedOnce(s) && Enabled(s, TryAcquire(t))
    ensures StartedOnce(Next(s, TryAcquire(t)))
  {
    var s' := Next(s, TryAcquire(t));
    forall u | BeforeStart(s', u) ensures Tag(s', u) !in s'.starts {
      assert u != t ==> BeforeStart(s, u);
    }
  }

  lemma RestKeepsStartedOnce(s: Sys, e: Event)
    requires StartedOnce(s) && Enabled(s, e) && !e.Start? && !e.TryAcquire?
    ensures StartedOnce(Next(s, e))
  {
    var s' := Next(s, e);
    assert s'.starts == s.starts && s'.gens == s.gens;
    forall u | BeforeStart(s', u) ensures Tag(s', u) !in s'.starts {
      assert BeforeStart(s, u) && Tag(s', u) == Tag(s, u);
    }
  }

  lemma NextStartedOnce(s: Sys, e: Event)
    requires Owned(s) && StartedOnce(s) && Enabled(s, e)
    ensures StartedOnce(Next(s, e))
  {
    match e
    case TryAcquire(t) => AcquireKeepsStartedOnce(s, t);
    case Start(t) => StartKeepsStartedOnce(s, t);
    case _ => RestKeepsStartedOnce(s, e);
  }

  ghost predicate AllTame(s: Sys, es: seq<Event>)
    requires ValidRun(s, es)
    decreases |es|
  {
    es == [] || (Tame(s, es[0]) && AllTame(Next(s, es[0]), es[1..]))
  }

  /** At every point of a run a record is Running exactly when one run is between its TryAcquire and its
      Complete, refused runs included, and no record generation has had two handler starts. */
  lemma {:induction false} OneRunPerRecord(s: Sys, es: seq<Event>)
    requires Owned(s) && StartedOnce(s) && ValidRun(s, es) && AllTame(s, es)
    ensures var t := Run(s, es);
            && Owned(t) && StartedOnce(t)
            && forall log :: IsRunning(t, log) <==> exists u :: OwnsLog(t, u, log)
    decreases |es|
  {
    if es == [] {
      forall u, log | OwnsLog(s, u, log) ensures IsRunning(s, log) {
        assert OwnerHolds(s, u);
      }
    } else {
      NextOwned(s, es[0]);
      NextStartedOnce(s, es[0]);
      OneRunPerRecord(Next(s, es[0]), es[1..]);
    }
  }

  // No record of this LogID is removed, by gc or by force.
  ghost predicate NeverDeletes(es: seq<Event>, log: int) {
    forall i :: 0 <= i < |es| ==> !(es[i].Gc? && log in es[i].logs) && es[i] != ForceDelete(log)
  }

  // This run was granted the LogID by TryAcquire.
  predicate Granted(s: Sys, t: nat, log: int) {
    t in s.runs && s.runs[t].log == log && s.runs[t].gen >= 1
  }

  predicate StartOf(s: Sys, i: nat, log: int) {
    i < |s.starts| && s.starts[i].log == log
  }

  ghost predicate Sole(s: Sys, log: int) {
    && (forall t, u :: Granted(s, t, log) && Granted(s, u, log) ==> t == u)
    && (forall t :: Granted(s, t, log) ==> log in s.records)
    && (forall i :: StartOf(s, i, log) ==> log in s.records)
    && (forall i, k :: StartOf(s, i, log) && StartOf(s, k, log) ==> i == k)
    && (forall t :: BeforeStart(s, t) && s.runs[t].log == log ==> Granted(s, t, log))
    && (forall t, i :: BeforeStart(s, t) && s.runs[t].log == log ==> !StartOf(s, i, log))
  }

  lemma RecordStays(s: Sys, e: Event, log: int)
    requires Enabled(s, e) && !(e.Gc? && log in e.logs) && e != ForceDelete(log)
    ensures log in s.records ==> log in Next(s, e).records
  {
    match e
    case Gc(_) =>
    case ForceDelete(_) =>
    case Complete(_) =>
    case Rollback(_) =>
    case _ =>
  }

  // Any other event leaves LogIDs and generations alone, and brings no run closer to a new start.
  lemma RestRuns(s: Sys, e: Event, u: nat)
    requires Enabled(s, e) && !e.Start? && !e.TryAcquire? && u in Next(s, e).runs
    ensures Next(s, e).starts == s.starts && Next(s, e).gens == s.gens
    ensures var r := Next(s, e).runs[u];
            if u in s.runs then r.log == s.runs[u].log && r.gen == s.runs[u].gen else r.gen == 0 && r.pc.Called?
    ensures BeforeStart(Next(s, e), u) ==> BeforeStart(s, u)
  {
    match e
    case Call(_, _, _) =>
    case Add(_) =>
    case Complete(_) =>
    case Rollback(_) =>
    case _ =>
  }

  lemma AcquireKeepsSole(s: Sys, t: nat, log: int)
    requires Sole(s, log) && Enabled(s, TryAcquire(t))
    ensures Sole(Next(s, TryAcquire(t)), log)
  {
    var s' := Next(s, TryAcquire(t));
    var here := log == s.runs[t].log && log !in s.records;
    AcquireRecords(s, t, log);
    forall u
      ensures Granted(s', u, log) <==> Granted(s, u, log) || (u == t && here)
      ensures BeforeStart(s', u) && s'.runs[u].log == log ==>
        (u == t && here) || (BeforeStart(s, u) && s.runs[u].log == log)
    {
      AcquireRun(s, t, log, u);
    }
  }

  lemma AcquireRecords(s: Sys, t: nat, log: int)
    requires Enabled(s, TryAcquire(t))
    ensures log in Next(s, TryAcquire(t)).records <==> log in s.records || log == s.runs[t].log
    ensures forall i :: StartOf(Next(s, TryAcquire(t)), i, log) <==> StartOf(s, i, log)
  {
  }

  lemma AcquireRun(s: Sys, t: nat, log: int, u: nat)
    requires Enabled(s, TryAcquire(t))
    ensures var s' := Next(s, TryAcquire(t));
            var here := u == t && log == s.runs[t].log && log !in s.records;
            && (Granted(s', u, log) <==> Granted(s, u, log) || here)
            && (BeforeStart(s', u) && s'.runs[u].log == log ==> here || (BeforeStart(s, u) && s.runs[u].log == log))
  {
  }

  lemma StartKeepsSole(s: Sys, t: nat, log: int)
    requires Sole(s, log) && Enabled(s, Start(t))
    ensures Sole(Next(s, Start(t)), log)
  {
    var s' := Next(s, Start(t));
    assert BeforeStart(s, t);
    forall u ensures Granted(s', u, log) <==> Granted(s, u, log) {
    }
    forall i ensures StartOf(s', i, log) <==> StartOf(s, i, log) || (i == |s.starts| && log == s.runs[t].log) {
    }
    forall u | BeforeStart(s', u) && s'.runs[u].log == log
      ensures Granted(s', u, log) && log != s.runs[t].log
    {
      assert BeforeStart(s, u) && Granted(s, u, log);
      assert log == s.runs[t].log ==> Granted(s, t, log);
    }
  }

  lemma RestKeepsSole(s: Sys, e: Event, log: int)
    requires Sole(s, log) && Enabled(s, e) && !e.Start? && !e.TryAcquire?
    requires log in s.records ==> log in Next(s, e).records
    ensures Sole(Next(s, e), log)
  {
    var s' := Next(s, e);
    forall u | u in s'.runs
      ensures s'.starts == s.starts && (Granted(s', u, log) ==> Granted(s, u, log))
      ensures BeforeStart(s', u) ==>
        BeforeStart(s, u) && s'.runs[u].log == s.runs[u].log && s'.runs[u].gen == s.runs[u].gen
    {
      RestRuns(s, e, u);
    }
    RestStarts(s, e);
    assert forall i :: StartOf(s', i, log) <==> StartOf(s, i, log);
  }

  lemma RestStarts(s: Sys, e: Event)
    requires Enabled(s, e) && !e.Start?
    ensures Next(s, e).starts == s.starts
  {
  }

  lemma {:induction false} SoleAlways(s: Sys, es: seq<Event>, log: int)
    requires Sole(s, log) && ValidRun(s, es) && NeverDeletes(es, log)
    ensures Sole(Run(s, es), log)
    decreases |es|
  {
    if es != [] {
      assert forall i :: 0 <= i < |es[1..]| ==> es[1..][i] == es[i + 1];
      RecordStays(s, es[0], log);
      match es[0] {
        case TryAcquire(t) => AcquireKeepsSole(s, t, log);
        case Start(t) => StartKeepsSole(s, t, log);
        case _ => RestKeepsSole(s, es[0], log);
      }
      SoleAlways(Next(s, es[0]), es[1..], log);
    }
  }

  /** At most one execution per LogID: while its record is not deleted, its handler starts at most once, over
      every interleaving of any number of Run and Stop calls. */
  lemma AtMostOnce(es: seq<Event>, log: int, i: nat, k: nat)
    requires ValidRun(Initial(), es) && NeverDeletes(es, log)
    requires StartOf(Run(Initial(), es), i, log) && StartOf(Run(Initial(), es), k, log)
    ensures i == k
  {
    SoleAlways(Initial(), es, log);
  }

  // ---------- The map of running jobs ----------

  // Between add and the deletion from the map.
  predicate Maps(pc: Pc) {
    pc.Added? || pc.Handling? || pc.Handled? || pc.Completed?
  }

  function Mappers(s: Sys): set<nat> {
    set t | t in s.runs && Maps(s.runs[t].pc)
  }

  function Leaving(s: Sys): set<nat> {
    set t | t in s.runs && s.runs[t].pc.Deleted?
  }

  // The window between Complete and the deferred remove.
  predicate InWindow(s: Sys, t: nat, log: int) {
    At(s, t, Completed) && s.runs[t].log == log
  }

  // No record is deleted while its run is in the window, nor while it is Running.
  ghost predicate Gentle(s: Sys, e: Event) {
    && Tame(s, e)
    && forall t, log :: InWindow(s, t, log) ==> !(e.Gc? && log in e.logs) && e != ForceDelete(log)
  }

  ghost predicate MapEntry(s: Sys, t: nat)
    requires t in s.runs
  {
    var r := s.runs[t];
    r.log in s.jobs && s.jobs[r.log] == Job(r.job, t)
  }

  ghost predicate EntryMapped(s: Sys, log: int)
    requires log in s.jobs
  {
    var t := s.jobs[log].tid;
    t in s.runs && Maps(s.runs[t].pc) && s.runs[t].log == log
  }

  // The map lists exactly the runs between add and their deletion.
  ghost predicate Listing(s: Sys) {
    && (forall t :: t in s.runs && Maps(s.runs[t].pc) ==> MapEntry(s, t))
    && (forall log :: log in s.jobs ==> EntryMapped(s, log))
  }

  ghost predicate Mapped(s: Sys) {
    && Listing(s)
    && (forall t, log :: InWindow(s, t, log) ==> log in s.records && s.records[log] != Running)
  }

  lemma AddKeepsMapped(s: Sys, t: nat)
    requires Owned(s) && Mapped(s) && Enabled(s, Add(t)) && !s.drained
    ensures Mapped(Next(s, Add(t)))
  {
    var s' := Next(s, Add(t));
    var log := s.runs[t].log;
    assert OwnsLog(s, t, log) && OwnerHolds(s, t);
    forall u | u in s.runs && Maps(s.runs[u].pc) ensures s.runs[u].log != log {
      assert InWindow(s, u, s.runs[u].log) || OwnsLog(s, u, s.runs[u].log);
    }
    assert log !in s.jobs by {
      assert log in s.jobs ==> EntryMapped(s, log);
    }
    forall u | u in s'.runs && Maps(s'.runs[u].pc) ensures MapEntry(s', u) {
      assert u != t ==> MapEntry(s, u);
    }
    forall l | l in s'.jobs ensures EntryMapped(s', l) {
      assert l != log ==> EntryMapped(s, l);
    }
    forall u, l | InWindow(s', u, l) ensures l in s'.records && s'.records[l] != Running {
      assert InWindow(s, u, l);
    }
  }

  lemma DeleteKeepsMapped(s: Sys, t: nat)
    requires Mapped(s) && Enabled(s, Delete(t))
    ensures Mapped(Next(s, Delete(t)))
  {
    var s' := Next(s, Delete(t));
    var log := s.runs[t].log;
    assert MapEntry(s, t);
    forall u | u in s'.runs && Maps(s'.runs[u].pc) ensures MapEntry(s', u) {
      assert MapEntry(s, u);
    }
    forall l | l in s'.jobs ensures EntryMapped(s', l) {
      assert EntryMapped(s, l);
    }
    forall u, l | InWindow(s', u, l) ensures l in s'.records && s'.records[l] != Running {
      assert InWindow(s, u, l);
    }
  }

  lemma CompleteKeepsMapped(s: Sys, e: Event)
    requires Owned(s) && Mapped(s) && Enabled(s, e) && (e.Complete? || e.Rollback?)
    ensures Mapped(Next(s, e))
  {
    var s' := Next(s, e);
    var log := s.runs[e.t].log;
    assert OwnerHolds(s, e.t);
    forall u | u in s'.runs && Maps(s'.runs[u].pc) ensures MapEntry(s', u) {
      assert MapEntry(s, u);
    }
    forall l | l in s'.jobs ensures EntryMapped(s', l) {
      assert EntryMapped(s, l);
    }
    forall u, l | InWindow(s', u, l) ensures l in s'.records && s'.records[l] != Running {
      assert u != e.t ==> InWindow(s, u, l);
    }
  }

  // The remaining events change neither the map nor who is mapped.
  lemma RestMapper(s: Sys, e: Event, u: nat)
    requires Enabled(s, e) && !Joins(s, e) && !e.Delete? && !e.Complete? && !e.Rollback?
    ensures Next(s, e).jobs == s.jobs
    ensures u in s.runs ==>
      u in Next(s, e).runs && Next(s, e).runs[u].log == s.runs[u].log && Next(s, e).runs[u].job == s.runs[u].job
    ensures u in Next(s, e).runs && Maps(Next(s, e).runs[u].pc) <==> u in s.runs && Maps(s.runs[u].pc)
    ensures forall l :: InWindow(Next(s, e), u, l) <==> InWindow(s, u, l)
  {
    match e
    case Call(_, _, _) =>
    case TryAcquire(_) =>
    case Done(_) =>
    case _ =>
  }

  lemma RestRecords(s: Sys, e: Event, log: int)
    requires Enabled(s, e) && !e.Complete? && !e.Rollback?
    requires log in s.records && s.records[log] != Running && !(e.Gc? && log in e.logs) && e != ForceDelete(log)
    ensures log in Next(s, e).records && Next(s, e).records[log] != Running
  {
    match e
    case TryAcquire(_) =>
    case Gc(_) =>
    case ForceDelete(_) =>
    case _ =>
  }

  lemma RestKeepsMapped(s: Sys, e: Event)
    requires Mapped(s) && Enabled(s, e) && Gentle(s, e) && !Joins(s, e) && !e.Delete? && !e.Complete? && !e.Rollback?
    ensures Mapped(Next(s, e))
  {
    var s' := Next(s, e);
    forall u
      ensures s'.jobs == s.jobs
      ensures u in s.runs ==> u in s'.runs && s'.runs[u].log == s.runs[u].log && s'.runs[u].job == s.runs[u].job
      ensures u in s'.runs && Maps(s'.runs[u].pc) <==> u in s.runs && Maps(s.runs[u].pc)
      ensures forall l :: InWindow(s', u, l) <==> InWindow(s, u, l)
    {
      RestMapper(s, e, u);
    }
    forall u | u in s'.runs && Maps(s'.runs[u].pc) ensures MapEntry(s', u) {
      assert MapEntry(s, u);
    }
    forall l | l in s'.jobs ensures EntryMapped(s', l) {
      assert EntryMapped(s, l);
    }
    forall u, l | InWindow(s', u, l) ensures l in s'.records && s'.records[l] != Running {
      assert InWindow(s, u, l);
      RestRecords(s, e, l);
    }
  }

  lemma NextMapped(s: Sys, e: Event)
    requires Owned(s) && Mapped(s) && Enabled(s, e) && Gentle(s, e)
    ensures Mapped(Next(s, e))
  {
    if Joins(s, e) {
      AddKeepsMapped(s, e.t);
    } else if e.Delete? {
      DeleteKeepsMapped(s, e.t);
    } else if e.Complete? || e.Rollback? {
      CompleteKeepsMapped(s, e);
    } else {
      RestKeepsMapped(s, e);
    }
  }

  ghost predicate AllGentle(s: Sys, es: seq<Event>)
    requires ValidRun(s, es)
    decreases |es|
  {
    es == [] || (Gentle(s, es[0]) && AllGentle(Next(s, es[0]), es[1..]))
  }

  ghost predicate Good(s: Sys) {
    Counted(s) && Owned(s) && Mapped(s)
  }

  lemma {:induction false} RunGood(s: Sys, es: seq<Event>)
    requires Good(s) && ValidRun(s, es) && AllGentle(s, es)
    ensures Good(Run(s, es))
    decreases |es|
  {
    if es != [] {
      NextCounted(s, es[0]);
      NextOwned(s, es[0]);
      NextMapped(s, es[0]);
      RunGood(Next(s, es[0]), es[1..]);
    }
  }

  /** isIdle: no entry of the map has this job ID. */
  predicate IdleIn(s: Sys, job: int) {
    forall log :: log in s.jobs ==> s.jobs[log].job != job
  }

  /** Accounting: the map has one entry per run between add and its deletion, the WaitGroup also counts those
      still on the way to wg.Done, and isIdle(job) holds exactly when no such run has this job ID. */
  lemma Accounting(s: Sys, es: seq<Event>, job: int)
    requires Good(s) && ValidRun(s, es) && AllGentle(s, es)
    ensures var u := Run(s, es);
            && |u.jobs| == |Mappers(u)| && u.wg == |u.jobs| + |Leaving(u)|
            && (IdleIn(u, job) <==> forall t :: t in Mappers(u) ==> u.runs[t].job != job)
  {
    RunGood(s, es);
    GoodCounts(Run(s, es));
    GoodIdle(Run(s, es), job);
  }

  lemma GoodCounts(s: Sys)
    requires Counted(s) && Listing(s)
    ensures |s.jobs| == |Mappers(s)| && s.wg == |s.jobs| + |Leaving(s)|
  {
    assert Holders(s) == Mappers(s) + Leaving(s) && Mappers(s) !! Leaving(s);
    ListedMappers(s);
    TidsSize(s.jobs, s.jobs.Keys);
    assert Listed(s) == Tids(s.jobs, s.jobs.Keys);
  }

  lemma GoodIdle(s: Sys, job: int)
    requires Listing(s)
    ensures IdleIn(s, job) <==> forall t :: t in Mappers(s) ==> s.runs[t].job != job
  {
    forall t | t in Mappers(s) ensures MapEntry(s, t) {
    }
    forall log | log in s.jobs
      ensures s.jobs[log].tid in Mappers(s) && s.runs[s.jobs[log].tid].job == s.jobs[log].job
    {
      assert EntryMapped(s, log) && MapEntry(s, s.jobs[log].tid);
    }
  }

  lemma ListedMappers(s: Sys)
    requires Listing(s)
    ensures Listed(s) == Mappers(s)
    ensures forall a, b :: a in s.jobs && b in s.jobs && s.jobs[a].tid == s.jobs[b].tid ==> a == b
  {
    forall t | t in Mappers(s) ensures t in Listed(s) {
      assert MapEntry(s, t);
    }
    forall log | log in s.jobs ensures s.jobs[log].tid in Mappers(s) {
      assert EntryMapped(s, log);
    }
    forall a, b | a in s.jobs && b in s.jobs && s.jobs[a].tid == s.jobs[b].tid ensures a == b {
      assert EntryMapped(s, a) && EntryMapped(s, b);
    }
  }

  function Tids(jobs: map<int, Job>, logs: set<int>): set<nat>
    requires logs <= jobs.Keys
  {
    set log | log in logs :: jobs[log].tid
  }

  lemma {:induction false} TidsSize(jobs: map<int, Job>, logs: set<int>)
    requires logs <= jobs.Keys
    requires forall a, b :: a in jobs && b in jobs && jobs[a].tid == jobs[b].tid ==> a == b
    ensures |Tids(jobs, logs)| == |logs|
    decreases |logs|
  {
    if forall log :: log !in logs {
      assert logs == {} && Tids(jobs, logs) == {};
    } else {
      var log :| log in logs;
      TidsSize(jobs, logs - {log});
      assert Tids(jobs, logs) == Tids(jobs, logs - {log}) + {jobs[log].tid};
    }
  }

  // ---------- Forced shutdown ----------

  ghost predicate AllCancelled(s: Sys) {
    s.drained && forall t :: t in s.runs && Maps(s.runs[t].pc) ==> t in s.cancelled
  }

  lemma NextCancelled(s: Sys, e: Event)
    requires AllCancelled(s) && Enabled(s, e)
    ensures AllCancelled(Next(s, e))
  {
    if OfRun(e) {
      MovesCancelled(s, e);
    }
  }

  lemma MovesCancelled(s: Sys, e: Event)
    requires AllCancelled(s) && Enabled(s, e) && OfRun(e)
    ensures AllCancelled(Next(s, e))
  {
    match e
    case Add(_) =>
    case Rollback(_) =>
    case Complete(_) =>
    case _ =>
  }

  lemma {:induction false} StaysCancelled(s: Sys, es: seq<Event>)
    requires AllCancelled(s) && ValidRun(s, es)
    ensures AllCancelled(Run(s, es))
    decreases |es|
  {
    if es != [] {
      NextCancelled(s, es[0]);
      StaysCancelled(Next(s, es[0]), es[1..]);
    }
  }

  /** killAll comes after close, so from then on every job still in the map has a cancelled context. */
  lemma KillAllReachesAll(s: Sys, sid: nat, es: seq<Event>)
    requires Good(s) && Enabled(s, KillAll(sid)) && ValidRun(Next(s, KillAll(sid)), es)
    ensures AllCancelled(Run(Next(s, KillAll(sid)), es))
  {
    ListedMappers(s);
    forall t | t in s.runs && Maps(s.runs[t].pc) ensures t in Next(s, KillAll(sid)).cancelled {
      assert t in Mappers(s);
    }
    StaysCancelled(Next(s, KillAll(sid)), es);
  }

  lemma {:induction false} CancelledForGood(s: Sys, es: seq<Event>, t: nat)
    requires ValidRun(s, es) && t in s.cancelled
    ensures t in Run(s, es).cancelled
    decreases |es|
  {
    if es != [] {
      CancelledForGood(Next(s, es[0]), es[1..], t);
    }
  }

  /** Kill cancels the run that the map lists for the LogID, for good, and no other. */
  lemma KillReachesRun(s: Sys, t: nat, log: int, es: seq<Event>)
    requires Good(s) && t in s.runs && s.runs[t].log == log && Maps(s.runs[t].pc) && ValidRun(Next(s, Kill(log)), es)
    ensures t in Run(Next(s, Kill(log)), es).cancelled
    ensures Next(s, Kill(log)) == s.(cancelled := s.cancelled + {t})
  {
    assert MapEntry(s, t);
    CancelledForGood(Next(s, Kill(log)), es, t);
  }

  // A run that was granted its record and has ended has cancelled its context.
  ghost predicate Released(s: Sys, t: nat)
    requires t in s.runs
  {
    match s.runs[t].pc
    case Called => s.runs[t].gen == 0
    case Checked => s.runs[t].gen == 0
    case Ended => s.runs[t].gen > 0 ==> t in s.cancelled
    case _ => true
  }

  lemma NextReleased(s: Sys, e: Event, t: nat)
    requires Enabled(s, e) && (t in s.runs ==> Released(s, t)) && t in Next(s, e).runs
    ensures Released(Next(s, e), t)
  {
    match e
    case Call(_, _, _) =>
    case CheckStopped(_) =>
    case TryAcquire(_) =>
    case Add(_) =>
    case Rollback(_) =>
    case _ =>
  }

  /** No context is leaked: whatever happens, a run that got its record has cancelled its context by its end. */
  lemma {:induction false} EndedRunsReleased(s: Sys, es: seq<Event>)
    requires ValidRun(s, es) && forall t :: t in s.runs ==> Released(s, t)
    ensures forall t :: t in Run(s, es).runs ==> Released(Run(s, es), t)
    decreases |es|
  {
    if es != [] {
      forall t | t in Next(s, es[0]).runs ensures Released(Next(s, es[0]), t) {
        NextReleased(s, es[0], t);
      }
      EndedRunsReleased(Next(s, es[0]), es[1..]);
    }
  }

  // Whoever's CAS failed has returned false.
  ghost predicate OneStopping(s: Sys) {
    && (!s.stopped ==> s.stops == map[])
    && forall a, b :: a in s.stops && b in s.stops && s.stops[a] != Returned(false) && s.stops[b] != Returned(false) ==>
         a == b
  }

  /** Of all calls of Stop one closes, waits and kills; every other returns false at once. */
  lemma {:induction false} OneStopper(s: Sys, es: seq<Event>)
    requires ValidRun(s, es) && OneStopping(s)
    ensures OneStopping(Run(s, es))
    decreases |es|
  {
    if es != [] {
      NextOneStopping(s, es[0]);
      OneStopper(Next(s, es[0]), es[1..]);
    }
  }

  lemma NextOneStopping(s: Sys, e: Event)
    requires Enabled(s, e) && OneStopping(s)
    ensures OneStopping(Next(s, e))
  {
    match e
    case Cas(_) =>
    case Close(_) =>
    case WaitTrue(_) =>
    case WaitFalse(_) =>
    case KillAll(_) =>
    case Return(_) =>
    case _ => RestStops(s, e);
  }

  lemma RestStops(s: Sys, e: Event)
    requires Enabled(s, e) && (OfRun(e) || e.Kill? || e.Gc? || e.ForceDelete?)
    ensures Next(s, e).stops == s.stops && Next(s, e).stopped == s.stopped
  {
    match e
    case Rollback(_) =>
    case Complete(_) =>
    case _ =>
  }

  lemma InitialGood()
    ensures Good(Initial()) && StartedOnce(Initial()) && OneStopping(Initial())
  {
    assert Holders(Initial()) == {};
  }
}
