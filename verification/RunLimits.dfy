/** What the executor's protocol does not promise, and exactly when it does. */
module RunLimits {
  import opened RunProtocol

  lemma {:induction false} RunSnoc(s: Sys, es: seq<Event>, e: Event)
    requires ValidRun(s, es) && Enabled(Run(s, es), e)
    ensures ValidRun(s, es + [e]) && Run(s, es + [e]) == Next(Run(s, es), e)
    decreases |es|
  {
    if es == [] {
      assert ValidRun(Next(s, e), []) && ([e])[1..] == [] && [] + [e] == [e];
    } else {
      RunSnoc(Next(s, es[0]), es[1..], e);
      assert (es + [e])[1..] == es[1..] + [e];
    }
  }

  lemma {:induction false} RunAppend(s: Sys, es: seq<Event>, more: seq<Event>)
    requires ValidRun(s, es) && ValidRun(Run(s, es), more)
    ensures ValidRun(s, es + more) && Run(s, es + more) == Run(Run(s, es), more)
    decreases |es|
  {
    if es == [] {
      assert es + more == more;
    } else {
      assert (es + more)[1..] == es[1..] + more;
      RunAppend(Next(s, es[0]), es[1..], more);
    }
  }

  // ---------- Stop ----------

  predicate HasReturned(s: Sys, sid: nat) {
    sid in s.stops && s.stops[sid].Returned?
  }

  /** However the run goes on, nothing is in flight when this Stop has returned. */
  ghost predicate OutlastsAll(s: Sys, sid: nat) {
    forall es :: ValidRun(s, es) && HasReturned(Run(s, es), sid) ==> Holders(Run(s, es)) == {}
  }

  // Both waits time out.
  lemma ImpatientStop(s: Sys, sid: nat) returns (es: seq<Event>)
    requires StopAt(s, sid, Closed)
    ensures ValidRun(s, es) && StopAt(Run(s, es), sid, Returned(false)) && Run(s, es).runs == s.runs
  {
    es := [WaitFalse(sid)];
    assert ValidRun(Next(s, es[0]), []) && es[1..] == [];
    RunSnoc(s, es, KillAll(sid));
    es := es + [KillAll(sid)];
    RunSnoc(s, es, WaitFalse(sid));
    es := es + [WaitFalse(sid)];
  }

  /** Stop's own comment says that it returns only after every goroutine has ended; but the result of its second
      waitDone is ignored.  It keeps that promise in every continuation if and only if nothing was in flight when
      close ran. */
  lemma StopOutlastsExactly(s: Sys, sid: nat)
    requires Counted(s) && StopAt(s, sid, Closed)
    ensures OutlastsAll(s, sid) <==> Holders(s) == {}
  {
    if Holders(s) == {} {
      forall es | ValidRun(s, es) ensures Holders(Run(s, es)) == {} {
        ClosedNeverRises(s, es);
      }
    } else {
      var es := ImpatientStop(s, sid);
      assert HasReturned(Run(s, es), sid) && Holders(Run(s, es)) == Holders(s);
    }
  }

  // A run up to its handler: call, both checks, add, start.
  lemma OneHandler() returns (es: seq<Event>)
    ensures ValidRun(Initial(), es)
    ensures var s := Run(Initial(), es);
            && s.runs == map[0 := Thread(7, 1, 1, Handling)] && s.jobs == map[7 := Job(1, 0)] && s.wg == 1
            && s.records == map[7 := Running] && s.stops == map[] && !s.stopped && !s.drained
  {
    es := [Call(0, 7, 1)];
    assert ValidRun(Next(Initial(), es[0]), []);
    RunSnoc(Initial(), es, CheckStopped(0));
    es := es + [CheckStopped(0)];
    RunSnoc(Initial(), es, TryAcquire(0));
    es := es + [TryAcquire(0)];
    RunSnoc(Initial(), es, Add(0));
    es := es + [Add(0)];
    RunSnoc(Initial(), es, Start(0));
    es := es + [Start(0)];
  }

  /** Such a state is reached: here a Stop returns while a handler runs. */
  lemma StopMayReturnEarly() returns (es: seq<Event>)
    ensures ValidRun(Initial(), es)
    ensures var s := Run(Initial(), es); StopAt(s, 0, Returned(false)) && At(s, 0, Handling)
  {
    es := OneHandler();
    RunSnoc(Initial(), es, Cas(0));
    es := es + [Cas(0)];
    RunSnoc(Initial(), es, Close(0));
    es := es + [Close(0)];
    RunSnoc(Initial(), es, WaitFalse(0));
    es := es + [WaitFalse(0)];
    RunSnoc(Initial(), es, KillAll(0));
    es := es + [KillAll(0)];
    RunSnoc(Initial(), es, WaitFalse(0));
    es := es + [WaitFalse(0)];
  }

  // ---------- Deleting a record in the window ----------

  // A run past add, not yet out of the map, that the map does not show.
  ghost predicate Hidden(s: Sys, q: nat, log: int) {
    q in s.runs && s.runs[q].log == log && Maps(s.runs[q].pc) && log !in s.jobs
  }

  predicate Deletes(e: Event, log: int) {
    e == Gc({log}) || e == ForceDelete(log)
  }

  // A run of this LogID that is past the stopped check.
  predicate PastCheck(s: Sys, q: nat, log: int) {
    At(s, q, Checked) && s.runs[q].log == log
  }

  lemma Joining(s: Sys, q: nat, log: int) returns (es: seq<Event>)
    requires PastCheck(s, q, log) && !s.drained && log !in s.records
    ensures ValidRun(s, es)
    ensures var u := Run(s, es);
            && At(u, q, Handling) && u.runs[q].log == log && u.runs[q].job == s.runs[q].job
            && u.jobs == s.jobs[log := Job(s.runs[q].job, q)]
            && forall r :: r in s.runs && r != q ==> r in u.runs && u.runs[r] == s.runs[r]
  {
    es := [TryAcquire(q)];
    assert ValidRun(Next(s, es[0]), []) && es[1..] == [];
    RunSnoc(s, es, Add(q));
    es := es + [Add(q)];
    RunSnoc(s, es, Start(q));
    es := es + [Start(q)];
  }

  // A run that has passed the check takes the LogID over, and the first one's deferred remove hides it.
  lemma TakenOver(s: Sys, t: nat, log: int, q: nat) returns (es: seq<Event>)
    requires InWindow(s, t, log) && PastCheck(s, q, log) && !s.drained && log !in s.records
    ensures ValidRun(s, es)
    ensures var u := Run(s, es);
            && At(u, q, Handling) && u.runs[q].job == s.runs[q].job && u.jobs == s.jobs - {log}
            && Hidden(u, q, log)
  {
    es := Joining(s, q, log);
    var u := Run(s, es);
    RunSnoc(s, es, Delete(t));
    es := es + [Delete(t)];
    assert u.jobs - {log} == s.jobs - {log};
  }

  lemma NewRun(s: Sys, q: nat, log: int, job: int)
    requires !s.stopped && q !in s.runs
    ensures var es := [Call(q, log, job), CheckStopped(q)];
            ValidRun(s, es) && Run(s, es) == s.(runs := s.runs[q := Thread(log, job, 0, Checked)])
  {
    var c := Next(s, Call(q, log, job));
    RunCons(c, CheckStopped(q), []);
    RunCons(s, Call(q, log, job), [CheckStopped(q)]);
    assert [CheckStopped(q)] + [] == [CheckStopped(q)];
    assert [Call(q, log, job)] + [CheckStopped(q)] == [Call(q, log, job), CheckStopped(q)];
    assert Next(c, CheckStopped(q)) == s.(runs := s.runs[q := Thread(log, job, 0, Checked)]);
  }

  // With the record gone, and the runner taking new runs, one of the LogID gets through and loses its entry.
  lemma NewRunHidden(s: Sys, t: nat, log: int, q: nat, job: int) returns (es: seq<Event>)
    requires InWindow(s, t, log) && log !in s.records && !s.stopped && !s.drained && q !in s.runs
    ensures ValidRun(s, es)
    ensures var u := Run(s, es);
            At(u, q, Handling) && u.runs[q].job == job && u.jobs == s.jobs - {log} && Hidden(u, q, log)
  {
    NewRun(s, q, log, job);
    var start := [Call(q, log, job), CheckStopped(q)];
    var rest := TakenOver(Run(s, start), t, log, q);
    RunAppend(s, start, rest);
    es := start + rest;
  }

  lemma RecordDeleted(s: Sys, t: nat, log: int, e: Event)
    requires Good(s) && InWindow(s, t, log) && Deletes(e, log)
    ensures Enabled(s, e) && Next(s, e) == s.(records := s.records - {log})
  {
  }

  lemma RunCons(s: Sys, e: Event, es: seq<Event>)
    requires Enabled(s, e) && ValidRun(Next(s, e), es)
    ensures ValidRun(s, [e] + es) && Run(s, [e] + es) == Run(Next(s, e), es)
  {
    assert ([e] + es)[1..] == es;
  }

  /** The window matters: whatever the state, if a record is deleted between its run's Complete and the deferred
      remove, while the runner takes new runs, then a second run of the LogID can lose its map entry, and isIdle
      says yes while its handler runs. */
  lemma GcInWindowHidesRun(s: Sys, t: nat, log: int, e: Event, q: nat, job: int) returns (es: seq<Event>)
    requires Good(s) && InWindow(s, t, log) && !s.stopped && !s.drained && Deletes(e, log)
    requires q !in s.runs && IdleIn(s, job)
    ensures ValidRun(s, es) && es != [] && es[0] == e
    ensures var u := Run(s, es);
            At(u, q, Handling) && u.runs[q].job == job && IdleIn(u, job) && Hidden(u, q, log)
  {
    RecordDeleted(s, t, log, e);
    var rest := NewRunHidden(Next(s, e), t, log, q, job);
    RunCons(s, e, rest);
    es := [e] + rest;
  }

  // No run of this LogID can be added any more.
  ghost predicate NoneToCome(s: Sys, log: int) {
    s.drained || (s.stopped && forall q :: q in s.runs && s.runs[q].log == log ==>
                                 !s.runs[q].pc.Checked? && !s.runs[q].pc.Acquired?)
  }

  // And those there are have their entries.
  ghost predicate AllListed(s: Sys, log: int) {
    forall q :: q in s.runs && s.runs[q].log == log && Maps(s.runs[q].pc) ==> MapEntry(s, q)
  }

  predicate JoinsAs(s: Sys, e: Event, log: int) {
    e.Add? && !s.drained && e.t in s.runs && s.runs[e.t].log == log
  }

  lemma NoneStillToCome(s: Sys, e: Event, log: int)
    requires NoneToCome(s, log) && Enabled(s, e)
    ensures NoneToCome(Next(s, e), log) && !JoinsAs(s, e, log)
  {
    if !s.drained && OfRun(e) {
      RunStillToCome(s, e, log);
    }
  }

  lemma RunStillToCome(s: Sys, e: Event, log: int)
    requires NoneToCome(s, log) && !s.drained && Enabled(s, e) && OfRun(e)
    ensures Next(s, e).stopped && !JoinsAs(s, e, log)
    ensures var u := Next(s, e);
            forall q :: q in u.runs && u.runs[q].log == log ==> !u.runs[q].pc.Checked? && !u.runs[q].pc.Acquired?
  {
    match e
    case TryAcquire(_) =>
    case Rollback(_) =>
    case Complete(_) =>
    case _ =>
  }

  lemma StaysListed(s: Sys, e: Event, log: int)
    requires AllListed(s, log) && Enabled(s, e) && !JoinsAs(s, e, log)
    ensures AllListed(Next(s, e), log)
  {
    if OfRun(e) {
      match e
      case Add(_) =>
      case Delete(_) => DeleteListed(s, e.t, log);
      case Complete(_) =>
      case Rollback(_) =>
      case _ =>
    }
  }

  lemma DeleteListed(s: Sys, t: nat, log: int)
    requires AllListed(s, log) && Enabled(s, Delete(t))
    ensures AllListed(Next(s, Delete(t)), log)
  {
    var u := Next(s, Delete(t));
    if s.runs[t].log == log {
      assert MapEntry(s, t);
    }
    forall q | q in u.runs && u.runs[q].log == log && Maps(u.runs[q].pc) ensures MapEntry(u, q) {
      assert MapEntry(s, q);
    }
  }

  lemma {:induction false} ListedAlways(s: Sys, es: seq<Event>, log: int)
    requires NoneToCome(s, log) && AllListed(s, log) && ValidRun(s, es)
    ensures AllListed(Run(s, es), log)
    decreases |es|
  {
    if es != [] {
      NoneStillToCome(s, es[0], log);
      StaysListed(s, es[0], log);
      ListedAlways(Next(s, es[0]), es[1..], log);
    }
  }

  ghost predicate CanHide(s: Sys, log: int) {
    exists es, q :: ValidRun(s, es) && Hidden(Run(s, es), q, log)
  }

  /** Deleting a record in the window can hide a run of its LogID if and only if one can still be added: the runner
      is not drained, and not stopped either unless a run of the LogID has passed the check. */
  lemma GcInWindowExactly(s: Sys, t: nat, log: int, e: Event)
    requires Good(s) && InWindow(s, t, log) && Deletes(e, log)
    ensures Enabled(s, e)
    ensures CanHide(Next(s, e), log) <==> !s.drained && (!s.stopped || exists q :: PastCheck(s, q, log))
  {
    RecordDeleted(s, t, log, e);
    if s.drained || (s.stopped && forall q :: !PastCheck(s, q, log)) {
      NeverHidden(s, t, log);
    } else if q :| PastCheck(s, q, log) {
      var es := TakenOver(Next(s, e), t, log, q);
    } else {
      var q := Above(s.runs.Keys);
      var es := NewRunHidden(Next(s, e), t, log, q, 0);
    }
  }

  lemma NeverHidden(s: Sys, t: nat, log: int)
    requires Good(s) && InWindow(s, t, log)
    requires s.drained || (s.stopped && forall q :: !PastCheck(s, q, log))
    ensures !CanHide(s.(records := s.records - {log}), log)
  {
    var s' := s.(records := s.records - {log});
    NobodyAcquires(s, t, log);
    forall q | q in s.runs && s.runs[q].log == log ensures !s.runs[q].pc.Checked? || s.drained {
      assert s.drained || !PastCheck(s, q, log);
    }
    forall q | q in s'.runs && s'.runs[q].log == log && Maps(s'.runs[q].pc) ensures MapEntry(s', q) {
      assert MapEntry(s, q);
    }
    forall es, q | ValidRun(s', es) ensures !Hidden(Run(s', es), q, log) {
      ListedAlways(s', es, log);
      assert Hidden(Run(s', es), q, log) ==> MapEntry(Run(s', es), q);
    }
  }

  // The record is there, so nobody holds the LogID.
  lemma NobodyAcquires(s: Sys, t: nat, log: int)
    requires Good(s) && InWindow(s, t, log)
    ensures forall q :: q in s.runs && s.runs[q].log == log ==> !s.runs[q].pc.Acquired?
  {
    forall q | q in s.runs && s.runs[q].log == log ensures !s.runs[q].pc.Acquired? {
      assert s.runs[q].pc.Acquired? ==> OwnerHolds(s, q);
    }
  }

  lemma {:induction false} Above(ts: set<nat>) returns (q: nat)
    ensures forall t :: t in ts ==> t < q
    decreases |ts|
  {
    if t :| t in ts {
      var p := Above(ts - {t});
      q := if t < p then p else t + 1;
      assert forall x :: x in ts ==> x == t || x in ts - {t};
    } else {
      q := 0;
    }
  }

  // ---------- Accounting once drained ----------

  lemma DrainedListing(s: Sys, e: Event)
    requires Listing(s) && s.drained && Enabled(s, e)
    ensures Listing(Next(s, e))
  {
    var u := Next(s, e);
    forall log ensures AllListed(u, log) {
      StaysListed(s, e, log);
    }
    forall t | t in u.runs && Maps(u.runs[t].pc) ensures MapEntry(u, t) {
      assert AllListed(u, u.runs[t].log);
    }
    forall log | log in u.jobs ensures EntryMapped(u, log) {
      DrainedEntry(s, e, log);
    }
  }

  // No entry is made any more, and an entry leaves with its run.
  lemma DrainedEntry(s: Sys, e: Event, log: int)
    requires Listing(s) && s.drained && Enabled(s, e) && log in Next(s, e).jobs
    ensures EntryMapped(Next(s, e), log)
  {
    assert log in s.jobs && EntryMapped(s, log);
    match e
    case Delete(t) => assert MapEntry(s, t);
    case Complete(_) =>
    case Rollback(_) =>
    case _ =>
  }

  lemma {:induction false} DrainedAlways(s: Sys, es: seq<Event>)
    requires Counted(s) && Listing(s) && s.drained && ValidRun(s, es)
    ensures Counted(Run(s, es)) && Listing(Run(s, es))
    decreases |es|
  {
    if es != [] {
      NextCounted(s, es[0]);
      DrainedListing(s, es[0]);
      DrainedAlways(Next(s, es[0]), es[1..]);
    }
  }

  /** Once drained, map, WaitGroup and isIdle agree in every run, whichever records are deleted and when. */
  lemma AccountingOnceDrained(s: Sys, es: seq<Event>, job: int)
    requires Good(s) && s.drained && ValidRun(s, es)
    ensures var u := Run(s, es);
            && |u.jobs| == |Mappers(u)| && u.wg == |u.jobs| + |Leaving(u)|
            && (IdleIn(u, job) <==> forall t :: t in Mappers(u) ==> u.runs[t].job != job)
  {
    DrainedAlways(s, es);
    GoodCounts(Run(s, es));
    GoodIdle(Run(s, es), job);
  }

  // ---------- A Stop that did not end clean ----------

  // The Stop has not killed yet, or everything in the map is cancelled.
  ghost predicate KilledInTime(s: Sys, sid: nat) {
    && Counted(s) && Listing(s) && s.drained && sid in s.stops && !s.stops[sid].Won?
    && (s.stops[sid].Killed? || s.stops[sid] == Returned(false) ==> AllCancelled(s))
  }

  lemma KillCancelsListed(s: Sys, sid: nat)
    requires Listing(s) && s.drained && Enabled(s, KillAll(sid))
    ensures AllCancelled(Next(s, KillAll(sid)))
  {
    ListedMappers(s);
    forall t | t in s.runs && Maps(s.runs[t].pc) ensures t in Next(s, KillAll(sid)).cancelled {
      assert t in Mappers(s);
    }
  }

  lemma StaysKilledInTime(s: Sys, e: Event, sid: nat)
    requires KilledInTime(s, sid) && Enabled(s, e)
    ensures KilledInTime(Next(s, e), sid)
  {
    NextCounted(s, e);
    DrainedListing(s, e);
    if AllCancelled(s) {
      NextCancelled(s, e);
    }
    if e.KillAll? {
      KillCancelsListed(s, e.sid);
    }
    StopMoves(s, e, sid);
  }

  lemma StopMoves(s: Sys, e: Event, sid: nat)
    requires Enabled(s, e) && sid in s.stops && !s.stops[sid].Won?
    ensures sid in Next(s, e).stops && !Next(s, e).stops[sid].Won?
    ensures Next(s, e).stops[sid].Killed? || Next(s, e).stops[sid] == Returned(false) ==>
              s.stops[sid].Killed? || s.stops[sid] == Returned(false) || e == KillAll(sid)
  {
    if e.Complete? || e.Rollback? {
      assert Next(s, e).stops == s.stops;
    }
  }

  /** A Stop that has closed and then returns without having seen the count at zero has killed: in every run from there,
      whoever is still in the map then has a cancelled context. */
  lemma {:induction false} UncleanStopCancelsAll(s: Sys, es: seq<Event>, sid: nat)
    requires KilledInTime(s, sid) && ValidRun(s, es)
    ensures var u := Run(s, es); sid in u.stops && (u.stops[sid] == Returned(false) ==> AllCancelled(u))
    decreases |es|
  {
    if es != [] {
      StaysKilledInTime(s, es[0], sid);
      UncleanStopCancelsAll(Next(s, es[0]), es[1..], sid);
    }
  }

  lemma ClosedIsInTime(s: Sys, sid: nat)
    requires Good(s) && StopAt(s, sid, Closed)
    ensures KilledInTime(s, sid)
  {
  }

  /** Such a state is reached: a run that has completed its record and not yet left the map. */
  lemma WindowIsReached() returns (es: seq<Event>)
    ensures ValidRun(Initial(), es)
    ensures var s := Run(Initial(), es); Good(s) && InWindow(s, 0, 7) && !s.stopped && !s.drained && IdleIn(s, 2)
  {
    es := OneHandler();
    RunSnoc(Initial(), es, Finish(0, true));
    es := es + [Finish(0, true)];
    RunSnoc(Initial(), es, Complete(0));
    es := es + [Complete(0)];
    var s := Run(Initial(), es);
    assert Holders(s) == {0} && EntryMapped(s, 7) && MapEntry(s, 0);
  }
}
