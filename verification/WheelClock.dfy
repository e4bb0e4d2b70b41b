/** The wheel's promises by the clock on the wall.  The wheel's own time is the wall time of its last tick, rounded down
    to the millisecond; this is what a task's lateness comes to when it is read off the wall. */
module WheelClock {
  import opened Basics
  import opened WheelPlan
  import opened WheelRuns

  // The wall time of the last tick of a run, or of its beginning if it has none.
  function LastWall(es: seq<Event>, last: int): int
    decreases |es|
  {
    if es == [] then last else LastWall(es[1..], if es[0].TickAt? then es[0].wall else last)
  }

  predicate HasStarted(a: Agenda, t: Task) {
    t in a.fires && a.fires[t] != []
  }

  /** When the task's function was started: the wall time of the tick that did it; if it started when it was added, of
      the tick before. */
  function StartedAt(a: Agenda, es: seq<Event>, t: Task, last: int): Option<int>
    decreases |es|
  {
    if es == [] then None
    else
      var b, wall := Next(a, es[0]), if es[0].TickAt? then es[0].wall else last;
      if HasStarted(b, t) && !HasStarted(a, t) then Some(wall) else StartedAt(b, es[1..], t, wall)
  }

  // The wheel's time is this wall time, rounded down.
  predicate InStep(a: Agenda, wall: int) {
    WholeMillis(a.now) && a.now <= wall < a.now + MS
  }

  lemma StaysInStep(a: Agenda, e: Event, last: int)
    requires InStep(a, last)
    ensures InStep(Next(a, e), if e.TickAt? then e.wall else last)
  {
  }

  /** After every run the wheel's time is the last tick's wall time, rounded down to the millisecond. */
  lemma {:induction false} RunStaysInStep(a: Agenda, es: seq<Event>, last: int)
    requires InStep(a, last)
    ensures InStep(Run(a, es), LastWall(es, last))
    decreases |es|
  {
    if es != [] {
      StaysInStep(a, es[0], last);
      RunStaysInStep(Next(a, es[0]), es[1..], if es[0].TickAt? then es[0].wall else last);
    }
  }

  // ---------- A task starts at the wheel's time ----------

  // What was recorded before is still there, and what has been added is the present time.
  ghost predicate OnlyNow(was: seq<int>, fires: seq<int>, now: int) {
    was <= fires && forall i :: |was| <= i < |fires| ==> fires[i] == now
  }

  lemma StageAddsNow(a: Agenda, stage: nat, refused: set<Task>, t: Task)
    requires a.ticks > 0 && t in a.fires
    ensures t in Stage(a, stage, refused).fires && OnlyNow(a.fires[t], Stage(a, stage, refused).fires[t], a.now)
  {
  }

  ghost predicate AddsNow(a: Agenda, count: nat, refused: seq<set<Task>>, t: Task)
    requires a.ticks > 0 && t in a.fires
  {
    t in Stages(a, count, refused).fires && OnlyNow(a.fires[t], Stages(a, count, refused).fires[t], a.now)
  }

  lemma NextStageAddsNow(a: Agenda, count: nat, refused: seq<set<Task>>, t: Task)
    requires a.ticks > 0 && t in a.fires && AddsNow(a, count, refused, t)
    ensures AddsNow(a, count + 1, refused, t)
  {
    StageAddsNow(Stages(a, count, refused), count, RefusedIn(refused, count), t);
  }

  lemma StagesAddNow(a: Agenda, count: nat, refused: seq<set<Task>>, t: Task)
    requires a.ticks > 0 && t in a.fires
    ensures AddsNow(a, count, refused, t)
  {
    for i := 0 to count
      invariant AddsNow(a, i, refused, t)
    {
      NextStageAddsNow(a, i, refused, t);
    }
  }

  lemma StartsNow(a: Agenda, e: Event, t: Task)
    requires Conserved(a) && Enabled(a, e) && !HasStarted(a, t) && HasStarted(Next(a, e), t)
    ensures Next(a, e).fires[t] == [Next(a, e).now] && t !in Next(a, e).plan
  {
    NextConserves(a, e);
    var b := Next(a, e);
    assert Accounted(b, t);
    if e.TickAt? {
      TickStarts(a, e.wall, e.refused, t);
    }
  }

  lemma TickStarts(a: Agenda, wall: int, refused: seq<set<Task>>, t: Task)
    requires t !in a.fires || a.fires[t] == []
    ensures var b := Tick(a, wall, refused);
            && (t in b.fires ==> t in a.fires)
            && (t in a.fires ==> t in b.fires && forall i :: 0 <= i < |b.fires[t]| ==> b.fires[t][i] == b.now)
  {
    var c := Clocked(a, wall);
    if t in a.fires {
      StagesAddNow(c, 1 + Rollover(c.ticks), refused, t);
    } else {
      NeverAdded(c, 1 + Rollover(c.ticks), refused, t);
    }
  }

  lemma {:induction false} NeverAdded(a: Agenda, count: nat, refused: seq<set<Task>>, t: Task)
    requires a.ticks > 0 && t !in a.fires
    ensures t !in Stages(a, count, refused).fires
  {
    if count > 0 {
      NeverAdded(a, count - 1, refused, t);
    }
  }

  /** A task's function is started exactly if the wheel records it, once, and within the millisecond the record
      names. */
  lemma {:induction false} StartedWithin(a: Agenda, es: seq<Event>, t: Task, last: int)
    requires Conserved(a) && ValidRun(a, es) && InStep(a, last) && !HasStarted(a, t)
    ensures var b, started := Run(a, es), StartedAt(a, es, t, last);
            && (started.Some? <==> HasStarted(b, t))
            && (started.Some? ==> |b.fires[t]| == 1 && b.fires[t][0] <= started.value < b.fires[t][0] + MS)
    decreases |es|
  {
    if es != [] {
      var b, wall := Next(a, es[0]), if es[0].TickAt? then es[0].wall else last;
      NextConserves(a, es[0]);
      StaysInStep(a, es[0], last);
      if HasStarted(b, t) {
        StartsNow(a, es[0], t);
        SealedFate(b, es[1..], t);
      } else {
        StartedWithin(b, es[1..], t, wall);
      }
    }
  }

  // ---------- The promises ----------

  /** Bounded lateness on the wall clock: an undisturbed task is started once, less than a millisecond before FireAt at
      the earliest (and not before FireAt if it was within the span), and less than one slot width of its first level
      and one millisecond after it, plus what the clock has gained on the ticks; and once the wall clock has passed
      that, it has been started. */
  lemma LatenessOnTheWall(a: Agenda, t: Task, es: seq<Event>, last: int)
    requires Conserved(a) && t !in a.fires && t !in a.cancelled && t.fireAt > a.now && InStep(a, last)
    requires ValidRun(Insert(a, t, false), es) && Paced(Insert(a, t, false), es)
    requires forall e :: e in es ==> Undisturbed(e, t)
    ensures var i := Insert(a, t, false);
            var b, started := Run(i, es), StartedAt(i, es, t, last);
            var latest := t.fireAt + LevelTick(FirstLevel(t.fireAt - a.now)) + Offset(b) - Offset(a);
            && (started.Some? ==> t.fireAt - MS < started.value < latest + MS)
            && (started.Some? && t.fireAt - a.now < MAX_WHEEL_SPAN ==> t.fireAt <= started.value)
            && (LastWall(es, last) >= latest + MS ==> started.Some?)
  {
    var i := Insert(a, t, false);
    NextConserves(a, Add(t, false));
    BoundedLateness(a, t, es);
    StartedWithin(i, es, t, last);
    RunStaysInStep(i, es, last);
  }

  /** A task that is due when it is added starts at once, and only then. */
  lemma DueStartsAtOnce(a: Agenda, t: Task, full: bool, es: seq<Event>)
    requires Conserved(a) && t !in a.fires && t !in a.cancelled && t.fireAt <= a.now && ValidRun(Insert(a, t, full), es)
    ensures var b := Run(Insert(a, t, full), es); t in b.fires && b.fires[t] == [a.now]
  {
    SealedFate(Insert(a, t, full), es, t);
  }

  /** How coarse the wheel is for a delay: a millisecond, and from 256 ms on never more than the delay itself. */
  function Coarseness(delay: int): int {
    if delay < 256_000_000 then 1_000_000
    else if delay < 16_384_000_000 then 256_000_000
    else if delay < 1_048_576_000_000 then 16_384_000_000
    else 1_048_576_000_000
  }

  /** With a tick every millisecond: not before FireAt, and less than the coarseness of its delay and a millisecond
      later. */
  lemma ExactLatenessOnTheWall(a: Agenda, t: Task, es: seq<Event>, last: int)
    requires Conserved(a) && t !in a.fires && t !in a.cancelled && 0 < t.fireAt - a.now < MAX_WHEEL_SPAN
    requires InStep(a, last) && ValidRun(Insert(a, t, false), es) && ExactRun(Insert(a, t, false), es)
    requires forall e :: e in es ==> Undisturbed(e, t)
    ensures var i, delay := Insert(a, t, false), t.fireAt - a.now;
            var started := StartedAt(i, es, t, last);
            && Coarseness(delay) <= (if delay < 256_000_000 then MS else delay)
            && (started.Some? ==> t.fireAt <= started.value < t.fireAt + Coarseness(delay) + MS)
            && (LastWall(es, last) >= t.fireAt + Coarseness(delay) + MS ==> started.Some?)
  {
    var i := Insert(a, t, false);
    ExactRunsKeepOffset(i, es);
    LatenessOnTheWall(a, t, es, last);
    assert LevelTick(LevelOf(t.fireAt - a.now)) == Coarseness(t.fireAt - a.now);
  }

  /** Never early on the wall clock: from New on, with ticks at least a millisecond apart, no task is started before its
      FireAt rounded down to the millisecond. */
  lemma NeverEarlyOnTheWall(start: int, es: seq<Event>, t: Task)
    requires ValidRun(Initial(start), es) && Spaced(start, es)
    ensures var started := StartedAt(Initial(start), es, t, start);
            started.Some? ==> Truncate(t.fireAt) <= started.value
  {
    InitialConserved(start);
    FromTheStart(start, es);
    StartedWithin(Initial(start), es, t, start);
  }
}
