/** What the record of a LogID says about its handler: a completed record tells the handler's own answer, and a run that
    was refused leaves a failure. */
module RunOutcomes {
  import opened RunProtocol

  // What each run's handler has answered by the end of these events.
  function AnswersAfter(answers: map<nat, bool>, es: seq<Event>): map<nat, bool>
    decreases |es|
  {
    if es == [] then answers else AnswersAfter(Answering(answers, es[0]), es[1..])
  }

  function Answering(answers: map<nat, bool>, e: Event): map<nat, bool> {
    if e.Finish? then answers[e.t := e.ok] else answers
  }

  predicate AnsweredOk(answers: map<nat, bool>, t: nat) {
    t in answers && answers[t]
  }

  // The run has not got past its handler.
  predicate Unanswered(pc: Pc) {
    pc.Called? || pc.Checked? || pc.Acquired? || pc.Refused? || pc.Added? || pc.Handling?
  }

  ghost predicate AnswerKnown(s: Sys, answers: map<nat, bool>, t: nat)
    requires t in s.runs
  {
    && (Unanswered(s.runs[t].pc) ==> t !in answers)
    && (s.runs[t].pc.Handled? ==> t in answers && answers[t] == s.runs[t].pc.ok)
  }

  // The run that was granted the record its LogID has now, or had last.
  predicate LatestOf(s: Sys, t: nat, log: int) {
    t in s.runs && s.runs[t].log == log && s.runs[t].gen >= 1 && log in s.gens && s.gens[log] == s.runs[t].gen
  }

  predicate IsCompleted(s: Sys, log: int) {
    log in s.records && s.records[log] != Running
  }

  ghost predicate Numbered(s: Sys, t: nat)
    requires t in s.runs
  {
    && (s.runs[t].pc.Called? || s.runs[t].pc.Checked? ==> s.runs[t].gen == 0)
    && (Owns(s.runs[t].pc) ==> s.runs[t].gen >= 1)
    && (s.runs[t].gen >= 1 ==> s.runs[t].log in s.gens && s.runs[t].gen <= s.gens[s.runs[t].log])
  }

  ghost predicate RecordTells(s: Sys, answers: map<nat, bool>, t: nat, log: int) {
    LatestOf(s, t, log) && IsCompleted(s, log) ==> (s.records[log] == Success <==> AnsweredOk(answers, t))
  }

  ghost predicate Truthful(s: Sys, answers: map<nat, bool>) {
    && (forall t :: t in answers ==> t in s.runs)
    && (forall t :: t in s.runs ==> AnswerKnown(s, answers, t) && Numbered(s, t))
    && (forall t, u, log :: LatestOf(s, t, log) && LatestOf(s, u, log) ==> t == u)
    && (forall t, log :: RecordTells(s, answers, t, log))
    && (forall log :: log in s.records ==> exists t :: LatestOf(s, t, log))
  }

  // ---------- Each event keeps it ----------

  // A granted LogID has a new latest run; a refusal changes nobody's standing.
  lemma AcquiredLatest(s: Sys, t: nat, u: nat, l: int)
    requires Enabled(s, TryAcquire(t)) && Numbered(s, t) && (u in s.runs ==> Numbered(s, u))
    ensures var log := s.runs[t].log;
            LatestOf(Next(s, TryAcquire(t)), u, l)
            <==> if l == log && log !in s.records then u == t else LatestOf(s, u, l)
  {
  }

  lemma AcquiredRecords(s: Sys, t: nat, l: int)
    requires Enabled(s, TryAcquire(t))
    ensures var s', log := Next(s, TryAcquire(t)), s.runs[t].log;
            && (l in s'.records <==> l in s.records || l == log)
            && (l in s.records ==> s'.records[l] == s.records[l]) && (l !in s.records ==> !IsCompleted(s', l))
  {
  }

  lemma AcquiredRun(s: Sys, answers: map<nat, bool>, t: nat, u: nat)
    requires Enabled(s, TryAcquire(t)) && u in s.runs && AnswerKnown(s, answers, u) && Numbered(s, u)
    requires AnswerKnown(s, answers, t)
    ensures u in Next(s, TryAcquire(t)).runs
    ensures AnswerKnown(Next(s, TryAcquire(t)), answers, u) && Numbered(Next(s, TryAcquire(t)), u)
  {
  }

  lemma AcquireTells(s: Sys, answers: map<nat, bool>, t: nat)
    requires Truthful(s, answers) && Enabled(s, TryAcquire(t))
    ensures Truthful(Next(s, TryAcquire(t)), answers)
  {
    var s', log := Next(s, TryAcquire(t)), s.runs[t].log;
    assert s'.runs.Keys == s.runs.Keys && Numbered(s, t) && AnswerKnown(s, answers, t);
    forall u, l ensures LatestOf(s', u, l) <==> if l == log && log !in s.records then u == t else LatestOf(s, u, l) {
      assert u in s.runs ==> Numbered(s, u);
      AcquiredLatest(s, t, u, l);
    }
    forall u, l ensures RecordTells(s', answers, u, l) {
      assert RecordTells(s, answers, u, l);
      AcquiredRecords(s, t, l);
    }
    forall l | l in s'.records ensures exists u :: LatestOf(s', u, l) {
      AcquiredRecords(s, t, l);
      if l in s.records {
        var u :| LatestOf(s, u, l);
        assert LatestOf(s', u, l);
      } else {
        assert LatestOf(s', t, l);
      }
    }
    forall u | u in s'.runs ensures AnswerKnown(s', answers, u) && Numbered(s', u) {
      assert AnswerKnown(s, answers, u) && Numbered(s, u);
      AcquiredRun(s, answers, t, u);
    }
  }

  // Complete after the handler's answer, or Complete of a refused run: the record was Running, and this run's own.
  lemma CompleteTells(s: Sys, answers: map<nat, bool>, e: Event)
    requires Truthful(s, answers) && Owned(s) && Enabled(s, e) && (e.Complete? || e.Rollback?)
    ensures Truthful(Next(s, e), answers)
    ensures var log := s.runs[e.t].log;
            LatestOf(Next(s, e), e.t, log) && IsCompleted(Next(s, e), log)
  {
    var s', log := Next(s, e), s.runs[e.t].log;
    assert OwnerHolds(s, e.t) && AnswerKnown(s, answers, e.t) && Numbered(s, e.t);
    OwnersAreNumbered(s, answers, e.t);
    forall u, l ensures LatestOf(s', u, l) <==> LatestOf(s, u, l) {
    }
    forall u, l ensures RecordTells(s', answers, u, l) {
      assert RecordTells(s, answers, u, l) && LatestOf(s, e.t, log);
    }
    forall u | u in s'.runs ensures AnswerKnown(s', answers, u) && Numbered(s', u) {
      assert AnswerKnown(s, answers, u) && Numbered(s, u);
    }
    forall l | l in s'.records ensures exists u :: LatestOf(s', u, l) {
      var u :| LatestOf(s, u, l);
      assert LatestOf(s', u, l);
    }
  }

  lemma OwnersAreNumbered(s: Sys, answers: map<nat, bool>, t: nat)
    requires Truthful(s, answers) && Owned(s) && t in s.runs && Owns(s.runs[t].pc)
    ensures LatestOf(s, t, s.runs[t].log)
  {
    assert OwnerHolds(s, t) && Numbered(s, t);
  }

  // The other events grant no record, and complete none.
  lemma RestLatest(s: Sys, e: Event, u: nat, l: int)
    requires Enabled(s, e) && !e.TryAcquire? && !e.Complete? && !e.Rollback?
    ensures LatestOf(Next(s, e), u, l) <==> LatestOf(s, u, l)
  {
    match e
    case Call(_, _, _) =>
    case Add(_) =>
    case _ =>
  }

  lemma RestRecord(s: Sys, e: Event, l: int)
    requires Enabled(s, e) && !e.TryAcquire? && !e.Complete? && !e.Rollback? && l in Next(s, e).records
    ensures l in s.records && Next(s, e).records[l] == s.records[l]
  {
    match e
    case Gc(_) =>
    case ForceDelete(_) =>
    case _ =>
  }

  lemma RestAnswer(s: Sys, answers: map<nat, bool>, e: Event, u: nat)
    requires Enabled(s, e) && !e.TryAcquire? && !e.Complete? && !e.Rollback? && u in Next(s, e).runs
    requires if u in s.runs then AnswerKnown(s, answers, u) && Numbered(s, u) else u !in answers
    ensures AnswerKnown(Next(s, e), Answering(answers, e), u) && Numbered(Next(s, e), u)
  {
    match e
    case Call(_, _, _) =>
    case CheckStopped(_) =>
    case Add(_) =>
    case Finish(_, _) =>
    case Done(_) =>
    case _ =>
  }

  // An answer comes while the record is still Running.
  lemma RestRecordTells(s: Sys, answers: map<nat, bool>, e: Event, u: nat, l: int)
    requires Truthful(s, answers) && Owned(s) && Enabled(s, e) && !e.TryAcquire? && !e.Complete? && !e.Rollback?
    ensures RecordTells(Next(s, e), Answering(answers, e), u, l)
  {
    var s' := Next(s, e);
    assert RecordTells(s, answers, u, l);
    RestLatest(s, e, u, l);
    if l in s'.records {
      RestRecord(s, e, l);
    }
    if e.Finish? && e.t == u {
      assert OwnerHolds(s, u);
    }
  }

  lemma RestTells(s: Sys, answers: map<nat, bool>, e: Event)
    requires Truthful(s, answers) && Owned(s) && Enabled(s, e) && !e.TryAcquire? && !e.Complete? && !e.Rollback?
    ensures Truthful(Next(s, e), Answering(answers, e))
  {
    var s', after := Next(s, e), Answering(answers, e);
    forall u, l ensures (LatestOf(s', u, l) <==> LatestOf(s, u, l)) && RecordTells(s', after, u, l) {
      RestLatest(s, e, u, l);
      RestRecordTells(s, answers, e, u, l);
    }
    forall u | u in s'.runs ensures AnswerKnown(s', after, u) && Numbered(s', u) {
      assert u in s.runs ==> AnswerKnown(s, answers, u) && Numbered(s, u);
      RestAnswer(s, answers, e, u);
    }
    forall u | u in after ensures u in s'.runs {
      RestKeepsRuns(s, e, u);
    }
    forall l | l in s'.records ensures exists u :: LatestOf(s', u, l) {
      RestRecord(s, e, l);
      var u :| LatestOf(s, u, l);
      assert LatestOf(s', u, l);
    }
  }

  lemma RestKeepsRuns(s: Sys, e: Event, u: nat)
    requires Enabled(s, e)
    ensures u in s.runs ==> u in Next(s, e).runs
    ensures e.Finish? ==> e.t in Next(s, e).runs
  {
    match e
    case Call(_, _, _) =>
    case Complete(_) =>
    case _ =>
  }

  lemma NextTells(s: Sys, answers: map<nat, bool>, e: Event)
    requires Truthful(s, answers) && Owned(s) && Enabled(s, e)
    ensures Truthful(Next(s, e), Answering(answers, e))
  {
    match e
    case TryAcquire(t) => AcquireTells(s, answers, t);
    case Complete(_) => CompleteTells(s, answers, e);
    case Rollback(_) => CompleteTells(s, answers, e);
    case _ => RestTells(s, answers, e);
  }

  // ---------- Whole runs ----------

  lemma {:induction false} RunTells(s: Sys, answers: map<nat, bool>, es: seq<Event>)
    requires Truthful(s, answers) && Owned(s) && ValidRun(s, es) && AllTame(s, es)
    ensures Truthful(Run(s, es), AnswersAfter(answers, es)) && Owned(Run(s, es))
    decreases |es|
  {
    if es != [] {
      NextTells(s, answers, es[0]);
      NextOwned(s, es[0]);
      RunTells(Next(s, es[0]), Answering(answers, es[0]), es[1..]);
    }
  }

  /** The record tells the outcome: in every run from a new runner (in which no Running record is deleted by force), a
      completed record belongs to one run of its LogID, the one granted last, and it is Success if and only if the
      handler of that run answered without an error; it is Failed if the handler reported one, and if the run was
      refused and never had an answer. */
  lemma RecordTellsOutcome(es: seq<Event>, log: int) returns (t: nat)
    requires ValidRun(Initial(), es) && AllTame(Initial(), es) && IsCompleted(Run(Initial(), es), log)
    ensures var s, answers := Run(Initial(), es), AnswersAfter(map[], es);
            && LatestOf(s, t, log) && (forall u :: LatestOf(s, u, log) ==> u == t)
            && s.records[log] == (if AnsweredOk(answers, t) then Success else Failed)
  {
    InitialGood();
    RunTells(Initial(), map[], es);
    var s, answers := Run(Initial(), es), AnswersAfter(map[], es);
    t :| LatestOf(s, t, log);
    assert RecordTells(s, answers, t, log);
  }

  /** The moment of completion: after Complete the record is Success exactly if the handler answered so, after the
      rollback of a refused run it is Failed. */
  lemma CompleteRecordsAnswer(es: seq<Event>, e: Event)
    requires ValidRun(Initial(), es) && AllTame(Initial(), es) && (e.Complete? || e.Rollback?)
    requires Enabled(Run(Initial(), es), e)
    ensures var s, answers := Run(Initial(), es), AnswersAfter(map[], es);
            var log, s' := s.runs[e.t].log, Next(s, e);
            && IsRunning(s, log) && log in s'.records
            && (e.Complete? ==> e.t in answers && s'.records[log] == (if answers[e.t] then Success else Failed))
            && (e.Rollback? ==> e.t !in answers && s'.records[log] == Failed)
  {
    InitialGood();
    RunTells(Initial(), map[], es);
    var s, answers := Run(Initial(), es), AnswersAfter(map[], es);
    var s', log := Next(s, e), s.runs[e.t].log;
    assert OwnerHolds(s, e.t) && AnswerKnown(s, answers, e.t);
    CompleteTells(s, answers, e);
    assert RecordTells(s', answers, e.t, log);
  }

  lemma CompletedStaysOnce(s: Sys, e: Event, log: int)
    requires IsCompleted(s, log) && Enabled(s, e) && !(e.Gc? && log in e.logs) && e != ForceDelete(log)
    ensures IsCompleted(Next(s, e), log) && Next(s, e).records[log] == s.records[log]
  {
    match e
    case TryAcquire(_) =>
    case Complete(_) =>
    case Rollback(_) =>
    case Gc(_) =>
    case ForceDelete(_) =>
    case _ =>
  }

  /** And that stays until the record is deleted: every later run of the LogID is turned away with this answer. */
  lemma {:induction false} CompletedStays(s: Sys, es: seq<Event>, log: int)
    requires IsCompleted(s, log) && ValidRun(s, es) && NeverDeletes(es, log)
    ensures var t := Run(s, es); IsCompleted(t, log) && t.records[log] == s.records[log]
    ensures var t := Run(s, es);
            forall q :: Enabled(t, TryAcquire(q)) && t.runs[q].log == log ==>
              At(Next(t, TryAcquire(q)), q, Ended) && Next(t, TryAcquire(q)).starts == t.starts
    decreases |es|
  {
    if es != [] {
      assert forall i :: 0 <= i < |es[1..]| ==> es[1..][i] == es[i + 1];
      CompletedStaysOnce(s, es[0], log);
      CompletedStays(Next(s, es[0]), es[1..], log);
    }
  }
}
