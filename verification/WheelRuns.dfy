/** What every run of the timing wheel keeps, whatever the order of adds, cancels and ticks.

    Conservation and "fires at most once" need nothing of the clock.  "Never early" needs ticks at least
    a millisecond apart, and the lateness bound needs ticks exactly a millisecond apart. */
module WheelRuns {
  import opened WheelPlan

  // ---------- Runs ----------

  /** Requests in the order in which the wheel goroutine takes them.  `refused` names the tasks that
      found their slot full. */
  datatype Event =
    | Add(task: Task, full: bool)
    | CancelId(id: string)
    | CancelTask(task: Task)
    | TickAt(wall: int, refused: seq<set<Task>>)

  function Next(a: Agenda, e: Event): Agenda {
    match e
    case Add(t, full) => Insert(a, t, full)
    case CancelId(id) => Cancel(a, id)
    case CancelTask(t) => CancelHandle(a, t)
    case TickAt(wall, refused) => Tick(a, wall, refused)
  }

  // Every Add creates a task of its own; a tick that sticks is never completed.
  ghost predicate Enabled(a: Agenda, e: Event) {
    match e
    case Add(t, _) => t !in a.fires
    case TickAt(wall, _) => !Stuck(a, wall)
    case _ => true
  }

  function Run(a: Agenda, es: seq<Event>): Agenda
    decreases |es|
  {
    if es == [] then a else Run(Next(a, es[0]), es[1..])
  }

  ghost predicate ValidRun(a: Agenda, es: seq<Event>)
    decreases |es|
  {
    es != [] ==> Enabled(a, es[0]) && ValidRun(Next(a, es[0]), es[1..])
  }

  function Initial(start: int): Agenda {
    Agenda(Truncate(start), 0, map[], map[], {}, {}, map[])
  }

  // ---------- Arithmetic of the odometer ----------

  ghost predicate InWindow(spot: Spot, n: nat, adv: nat)
    requires n > 0 || adv >= 4
  {
    spot.Slot? ==>
      && spot.level < 4
      && spot.due % Width(spot.level) == 0
      && Base(spot.level, n, adv) < spot.due / Width(spot.level) <= Base(spot.level, n, adv) + SlotCount(spot.level)
  }

  // A placement lands within one revolution of the level's cursor.
  lemma PlaceInWindow(t: Task, now: int, n: nat, adv: nat)
    requires n > 0 || adv >= 4
    ensures var o := PlaceOutcome(t, now, n, adv); o.Put? ==> InWindow(o.spot, n, adv)
  {
    var delay := t.fireAt - now;
    if 0 < delay < MAX_WHEEL_SPAN {
      DueDigit(LevelOf(delay), delay, n, adv);
      SlotsAhead(delay);
    }
  }

  // What the level's digit, and everything above it, reads when the slot is drained.
  lemma DueDigit(level: nat, delay: int, n: nat, adv: nat)
    requires level < 4 && delay > 0 && (n > 0 || adv >= 4)
    ensures var due := DueOn(level, delay, n, adv);
            due % Width(level) == 0 && due / Width(level) == Base(level, n, adv) + delay / LevelTick(level) + 1
  {
    var digit := Base(level, n, adv) + delay / LevelTick(level) + 1;
    match level
    case 0 =>
    case 1 => assert (digit * 256) / 256 == digit;
    case 2 => assert (digit * 16384) / 16384 == digit;
    case 3 => assert (digit * 1048576) / 1048576 == digit;
  }

  lemma SlotsAhead(delay: int)
    requires 0 < delay < MAX_WHEEL_SPAN
    ensures 0 <= delay / LevelTick(LevelOf(delay)) < SlotCount(LevelOf(delay))
  {
  }

  // A slot is drained at the first tick that is at least the task's due tick, and that is the due tick.
  lemma DrainedWhenDue(spot: Spot, n: nat, level: nat)
    requires n > 0 && level < 4 && n % Width(level) == 0
    requires spot.Slot? && spot.level == level && InWindow(spot, n, level)
    ensures (spot.due / Width(level)) % SlotCount(level) == (n / Width(level)) % SlotCount(level) <==> spot.due == n
    ensures spot.due != n ==> InWindow(spot, n, level + 1)
  {
    var w := Width(level);
    assert (n - 1) / w == n / w - 1;
    assert spot.due == w * (spot.due / w) && n == w * (n / w);
  }

  // What a placement says about when the task will be drained, against when it is due to fire.
  lemma PlaceBounds(t: Task, now: int, n: nat, adv: nat)
    requires n > 0 || adv >= 4
    requires PlaceOutcome(t, now, n, adv).Put? && PlaceOutcome(t, now, n, adv).spot.Slot?
    ensures var s := PlaceOutcome(t, now, n, adv).spot;
            && s.level < 4
            && now + Millis(s.due - n) <= t.fireAt + LevelTick(s.level)
            && t.fireAt < now + Millis(s.due - n) + LevelTick(s.level)
            && (adv > 0 && s.level == 0 ==> t.fireAt < now + Millis(s.due - n))
  {
    var delay := t.fireAt - now;
    var level := LevelOf(delay);
    match level
    case 0 =>
    case 1 =>
    case 2 =>
    case 3 =>
  }

  // ---------- Conservation ----------

  ghost predicate LiveTask(a: Agenda, t: Task, adv: nat)
    requires a.ticks > 0 || adv >= 4
  {
    && t in a.plan
    && t in a.fires && a.fires[t] == []
    && t !in a.cancelled && t !in a.lost
    && t.id in a.index && a.index[t.id] == t
    && InWindow(a.plan[t], a.ticks, adv)
  }

  ghost predicate IndexEntry(a: Agenda, id: string) {
    && id in a.index
    && a.index[id].id == id
    && a.index[id] in a.fires && a.fires[a.index[id]] == []
    && (a.index[id] in a.plan || a.index[id] in a.cancelled || a.index[id] in a.lost)
  }

  // A task that is no longer live has fired once, or was cancelled or replaced, or was refused by a full slot.
  ghost predicate Accounted(a: Agenda, t: Task) {
    && t in a.fires
    && |a.fires[t]| <= 1
    && (t in a.plan || |a.fires[t]| == 1 || t in a.cancelled || t in a.lost)
  }

  ghost predicate ConservedMid(a: Agenda, adv: nat)
    requires a.ticks > 0 || adv >= 4
  {
    && WholeMillis(a.now)
    && (forall t :: t in a.plan ==> LiveTask(a, t, adv))
    && (forall id :: id in a.index ==> IndexEntry(a, id))
    && (forall t :: t in a.lost ==> t in a.fires && a.fires[t] == [])
    && (forall t :: t in a.fires ==> Accounted(a, t))
  }

  ghost predicate Conserved(a: Agenda) {
    ConservedMid(a, 4)
  }

  lemma StageConserves(a: Agenda, stage: nat, refused: set<Task>)
    requires a.ticks > 0 && stage <= 4
    requires ConservedMid(a, if stage == 0 then 0 else stage - 1)
    requires stage > 0 ==> a.ticks % Width(stage - 1) == 0
    ensures ConservedMid(Stage(a, stage, refused), stage)
  {
    var adv := if stage == 0 then 0 else stage - 1;
    var b := Stage(a, stage, refused);
    forall t | t in b.plan ensures LiveTask(b, t, stage) {
      assert LiveTask(a, t, adv);
      if Selected(a, t, stage) {
        PlaceInWindow(t, a.now, a.ticks, stage);
      } else if stage > 0 && a.plan[t].Slot? && a.plan[t].level == stage - 1 {
        DrainedWhenDue(a.plan[t], a.ticks, stage - 1);
      }
    }
    forall id | id in b.index ensures IndexEntry(b, id) {
      assert IndexEntry(a, id);
    }
    forall t | t in b.fires ensures Accounted(b, t) {
      assert Accounted(a, t);
      if t in a.plan {
        assert LiveTask(a, t, adv);
      }
    }
    forall t | t in b.lost ensures t in b.fires && b.fires[t] == [] {
      if t in a.plan {
        assert LiveTask(a, t, adv);
      }
    }
  }

  // A tick at which a level rolls over is one at which every level below it does.
  lemma Finer(n: nat)
    ensures n % 1048576 == 0 ==> n % 16384 == 0
    ensures n % 16384 == 0 ==> n % 256 == 0
  {
    var q, r := n / 1048576, n / 16384;
    if n % 1048576 == 0 {
      assert n == 16384 * (64 * q);
    }
    if n % 16384 == 0 {
      assert n == 256 * (64 * r);
    }
  }

  lemma RolloverWidths(n: nat, level: nat)
    requires level < 4
    ensures level < Rollover(n) <==> n % Width(level) == 0
  {
    Finer(n);
    match level
    case 0 =>
    case 1 =>
    case 2 =>
    case 3 =>
  }

  lemma {:induction false} StagesConserve(a: Agenda, count: nat, refused: seq<set<Task>>)
    requires a.ticks > 0 && ConservedMid(a, 0) && count <= 1 + Rollover(a.ticks)
    ensures ConservedMid(Stages(a, count, refused), if count == 0 then 0 else count - 1)
  {
    if count > 0 {
      StagesConserve(a, count - 1, refused);
      if count > 1 {
        RolloverWidths(a.ticks, count - 2);
      }
      StageConserves(Stages(a, count - 1, refused), count - 1, RefusedIn(refused, count - 1));
    }
  }

  // The levels that do not roll over read the same at tick n as at tick n - 1.
  lemma SettledWindow(spot: Spot, n: nat)
    requires n > 0 && InWindow(spot, n, Rollover(n))
    ensures InWindow(spot, n, 4)
  {
    if spot.Slot? {
      RolloverWidths(n, spot.level);
    }
  }

  lemma ClockConserves(a: Agenda, wall: int)
    requires Conserved(a)
    ensures ConservedMid(Clocked(a, wall), 0)
  {
    var c := Clocked(a, wall);
    forall t | t in c.plan ensures LiveTask(c, t, 0) {
      assert LiveTask(a, t, 4);
    }
    forall id | id in c.index ensures IndexEntry(c, id) {
      assert IndexEntry(a, id);
    }
    forall t | t in c.fires ensures Accounted(c, t) {
      assert Accounted(a, t);
    }
  }

  lemma TickConserves(a: Agenda, wall: int, refused: seq<set<Task>>)
    requires Conserved(a)
    ensures Conserved(Tick(a, wall, refused))
  {
    var c := Clocked(a, wall);
    ClockConserves(a, wall);
    StagesConserve(c, 1 + Rollover(c.ticks), refused);
    var b := Tick(a, wall, refused);
    forall t | t in b.plan ensures LiveTask(b, t, 4) {
      assert LiveTask(b, t, Rollover(c.ticks));
      SettledWindow(b.plan[t], b.ticks);
    }
  }

  lemma RegisterConserves(a: Agenda, t: Task)
    requires Conserved(a) && t !in a.fires
    ensures var r := Registered(a, t);
            && WholeMillis(r.now)
            && (forall u :: u in r.plan ==> LiveTask(r, u, 4))
            && (forall id :: id in r.index && id != t.id ==> IndexEntry(r, id))
            && (forall u :: u in r.lost ==> u in r.fires && r.fires[u] == [])
            && (forall u :: u in r.fires && u != t ==> Accounted(r, u))
            && t !in r.plan && t !in r.lost && (t in r.cancelled <==> t in a.cancelled)
  {
    var r := Registered(a, t);
    assert t.id in a.index ==> IndexEntry(a, t.id);
    forall u | u in a.plan ensures u != t && LiveTask(a, u, 4) {
    }
    forall u | u in r.plan ensures LiveTask(r, u, 4) {
      assert LiveTask(a, u, 4);
    }
    forall id | id in r.index && id != t.id ensures IndexEntry(r, id) {
      assert IndexEntry(a, id);
    }
    forall u | u in r.fires && u != t ensures Accounted(r, u) {
      assert Accounted(a, u);
    }
  }

  lemma InsertConserves(a: Agenda, t: Task, full: bool)
    requires Conserved(a) && t !in a.fires
    ensures Conserved(Insert(a, t, full))
  {
    var r := Registered(a, t);
    RegisterConserves(a, t);
    var b := Insert(a, t, full);
    PlaceInWindow(t, r.now, r.ticks, 4);
    forall u | u in b.plan ensures LiveTask(b, u, 4) {
      assert u != t ==> LiveTask(r, u, 4);
    }
    forall id | id in b.index ensures IndexEntry(b, id) {
      assert id != t.id ==> IndexEntry(r, id);
    }
    forall u | u in b.fires ensures Accounted(b, u) {
      assert u != t ==> Accounted(r, u);
    }
  }

  lemma DropConserves(a: Agenda, t: Task, id: string)
    requires Conserved(a)
    ensures Conserved(CancelHandle(a, t))
    ensures Conserved(Cancel(a, id))
  {
    var h := CancelHandle(a, t);
    forall u | u in h.plan ensures LiveTask(h, u, 4) {
      assert LiveTask(a, u, 4);
    }
    forall i | i in h.index ensures IndexEntry(h, i) {
      assert IndexEntry(a, i);
    }
    forall u | u in h.fires ensures Accounted(h, u) {
      assert Accounted(a, u);
    }
    var c := Cancel(a, id);
    forall u | u in c.plan ensures LiveTask(c, u, 4) {
      assert LiveTask(a, u, 4);
    }
    forall i | i in c.index ensures IndexEntry(c, i) {
      assert IndexEntry(a, i) && (id in a.index ==> IndexEntry(a, id));
    }
    forall u | u in c.fires ensures Accounted(c, u) {
      assert Accounted(a, u);
    }
  }

  lemma NextConserves(a: Agenda, e: Event)
    requires Conserved(a) && Enabled(a, e)
    ensures Conserved(Next(a, e))
  {
    match e
    case Add(t, full) => InsertConserves(a, t, full);
    case CancelId(id) => DropConserves(a, Task(0, "", 0), id);
    case CancelTask(t) => DropConserves(a, t, "");
    case TickAt(wall, refused) => TickConserves(a, wall, refused);
  }

  /** In every run, whatever the clock does: a live task has not fired and is the one its ID is indexed to;
      no two live tasks share an ID; every task inserted is live, or has fired exactly once, or was
      cancelled or replaced, or found its slot full; none fires twice. */
  lemma {:induction false} RunConserves(a: Agenda, es: seq<Event>)
    requires Conserved(a) && ValidRun(a, es)
    ensures Conserved(Run(a, es))
    decreases |es|
  {
    if es != [] {
      NextConserves(a, es[0]);
      RunConserves(Next(a, es[0]), es[1..]);
    }
  }

  lemma InitialConserved(start: int)
    ensures Conserved(Initial(start)) && NotEarly(Initial(start))
  {
  }

  lemma OneLiveTaskPerId(a: Agenda, t: Task, u: Task)
    requires Conserved(a) && t in a.plan && u in a.plan && t.id == u.id
    ensures t == u
  {
    assert LiveTask(a, t, 4) && LiveTask(a, u, 4);
  }

  // ---------- A task that is not live stays as it is ----------

  lemma {:induction false} StagesSealed(a: Agenda, count: nat, refused: seq<set<Task>>, t: Task)
    requires a.ticks > 0 && t in a.fires && t !in a.plan
    ensures var b := Stages(a, count, refused); t in b.fires && t !in b.plan && b.fires[t] == a.fires[t]
  {
    if count > 0 {
      StagesSealed(a, count - 1, refused, t);
    }
  }

  /** Once a task has fired, or was cancelled, replaced or refused, nothing that happens later makes it fire. */
  lemma {:induction false} SealedFate(a: Agenda, es: seq<Event>, t: Task)
    requires ValidRun(a, es) && t in a.fires && t !in a.plan
    ensures var b := Run(a, es); t in b.fires && t !in b.plan && b.fires[t] == a.fires[t]
    decreases |es|
  {
    if es != [] {
      if es[0].TickAt? {
        StagesSealed(Clocked(a, es[0].wall), 1 + Rollover(a.ticks + 1), es[0].refused, t);
      }
      SealedFate(Next(a, es[0]), es[1..], t);
    }
  }

  // The event cancels the task, by ID or by handle, or puts another task under its ID.
  predicate Ends(e: Event, t: Task) {
    e == CancelId(t.id) || e == CancelTask(t) || (e.Add? && e.task.id == t.id)
  }

  /** Once the wheel has processed a cancel of a waiting task, or an add that replaces it, the task never fires. */
  lemma CancelledNeverFires(a: Agenda, e: Event, es: seq<Event>, t: Task)
    requires Conserved(a) && t in a.plan && Ends(e, t) && Enabled(a, e) && ValidRun(Next(a, e), es)
    ensures var b := Run(Next(a, e), es); t in b.fires && b.fires[t] == [] && t !in b.plan
  {
    assert LiveTask(a, t, 4);
    SealedFate(Next(a, e), es, t);
  }

  // ---------- Cancelling by handle in the middle of a tick ----------

  // The stages from `from` on.
  function StagesFrom(a: Agenda, from: nat, count: nat, refused: seq<set<Task>>): (b: Agenda)
    requires a.ticks > 0 && from <= count
    ensures b.ticks == a.ticks
    decreases count
  {
    if count == from then a
    else Stage(StagesFrom(a, from, count - 1, refused), count - 1, RefusedIn(refused, count - 1))
  }

  // What a stage decides about a task does not depend on others being live.
  lemma OthersDecide(a: Agenda, stage: nat, refused: set<Task>, t: Task, u: Task)
    requires a.ticks > 0
    ensures var c := CancelHandle(a, t);
            && (Selected(c, u, stage) <==> Selected(a, u, stage) && u != t)
            && StageOutcome(c, u, stage) == StageOutcome(a, u, stage)
            && (Fired(c, u, stage) <==> Fired(a, u, stage) && u != t)
            && (Refused(c, u, stage, refused) <==> Refused(a, u, stage, refused) && u != t)
  {
  }

  lemma CancelPastPlan(a: Agenda, stage: nat, refused: set<Task>, t: Task)
    requires a.ticks > 0
    ensures Stage(a, stage, refused).plan - {t} == Stage(CancelHandle(a, t), stage, refused).plan
  {
    forall u
      ensures (u in Stage(a, stage, refused).plan && u != t) <==> u in Stage(CancelHandle(a, t), stage, refused).plan
    {
      OthersDecide(a, stage, refused, t, u);
    }
  }

  lemma CancelPastFires(a: Agenda, stage: nat, refused: set<Task>, t: Task)
    requires a.ticks > 0 && !Fired(a, t, stage) && !Refused(a, t, stage, refused)
    ensures Stage(a, stage, refused).fires == Stage(CancelHandle(a, t), stage, refused).fires
    ensures Stage(a, stage, refused).lost == Stage(CancelHandle(a, t), stage, refused).lost
  {
    forall u ensures (Fired(CancelHandle(a, t), u, stage) <==> Fired(a, u, stage))
      && (Refused(CancelHandle(a, t), u, stage, refused) <==> Refused(a, u, stage, refused))
    {
      OthersDecide(a, stage, refused, t, u);
    }
  }

  lemma CancelPastIndex(a: Agenda, stage: nat, refused: set<Task>, t: Task)
    requires a.ticks > 0 && !Fired(a, t, stage)
    ensures Stage(a, stage, refused).index == Stage(CancelHandle(a, t), stage, refused).index
  {
    forall u ensures Fired(CancelHandle(a, t), u, stage) <==> Fired(a, u, stage) {
      OthersDecide(a, stage, refused, t, u);
    }
  }

  // A cancel may be moved to before a stage that neither fires nor refuses its task.
  lemma CancelPastStage(a: Agenda, stage: nat, refused: set<Task>, t: Task)
    requires a.ticks > 0 && !Fired(a, t, stage) && !Refused(a, t, stage, refused)
    ensures CancelHandle(Stage(a, stage, refused), t) == Stage(CancelHandle(a, t), stage, refused)
  {
    CancelPastPlan(a, stage, refused, t);
    CancelPastFires(a, stage, refused, t);
    CancelPastIndex(a, stage, refused, t);
  }

  // Live after these stages, and the cancel can be moved to before them.
  ghost predicate MovesBack(a: Agenda, count: nat, refused: seq<set<Task>>, t: Task)
    requires a.ticks > 0
  {
    t in Stages(a, count, refused).plan ==>
      CancelHandle(Stages(a, count, refused), t) == Stages(CancelHandle(a, t), count, refused)
  }

  lemma MovesBackOnce(a: Agenda, count: nat, refused: seq<set<Task>>, t: Task)
    requires a.ticks > 0 && MovesBack(a, count, refused, t)
    ensures MovesBack(a, count + 1, refused, t)
  {
    var before, r := Stages(a, count, refused), RefusedIn(refused, count);
    if t in Stage(before, count, r).plan {
      StillLive(before, count, r, t);
    }
  }

  lemma CancelPastStages(a: Agenda, count: nat, refused: seq<set<Task>>, t: Task)
    requires a.ticks > 0
    ensures MovesBack(a, count, refused, t)
  {
    for i := 0 to count
      invariant MovesBack(a, i, refused, t)
    {
      MovesBackOnce(a, i, refused, t);
    }
  }

  lemma StillLive(a: Agenda, stage: nat, refused: set<Task>, t: Task)
    requires a.ticks > 0 && t in Stage(a, stage, refused).plan
    ensures t in a.plan && CancelHandle(Stage(a, stage, refused), t) == Stage(CancelHandle(a, t), stage, refused)
  {
    CancelPastStage(a, stage, refused, t);
  }

  lemma {:induction false} CancelAfterStages(a: Agenda, from: nat, count: nat, refused: seq<set<Task>>, t: Task)
    requires a.ticks > 0 && from <= count && t !in a.plan
    ensures StagesFrom(CancelHandle(a, t), from, count, refused) == CancelHandle(StagesFrom(a, from, count, refused), t)
    ensures t !in StagesFrom(a, from, count, refused).plan
    decreases count
  {
    if from < count {
      CancelAfterStages(a, from, count - 1, refused, t);
      CancelPastStage(StagesFrom(a, from, count - 1, refused), count - 1, RefusedIn(refused, count - 1), t);
    }
  }

  lemma {:induction false} StagesCompose(a: Agenda, from: nat, count: nat, refused: seq<set<Task>>)
    requires a.ticks > 0 && from <= count
    ensures StagesFrom(Stages(a, from, refused), from, count, refused) == Stages(a, count, refused)
    decreases count
  {
    if from < count {
      StagesCompose(a, from, count - 1, refused);
    }
  }

  /** A cancel between two stages of a tick comes to the same as one before the whole tick, if the task is still live
      then, and as one after it otherwise (it has fired, or was not live). */
  lemma MidTickCancel(a: Agenda, from: nat, count: nat, refused: seq<set<Task>>, t: Task)
    requires a.ticks > 0 && from <= count
    ensures var mid := Stages(a, from, refused);
            StagesFrom(CancelHandle(mid, t), from, count, refused) ==
            if t in mid.plan then Stages(CancelHandle(a, t), count, refused)
            else CancelHandle(Stages(a, count, refused), t)
  {
    var mid := Stages(a, from, refused);
    if t in mid.plan {
      CancelPastStages(a, from, refused, t);
      StagesCompose(CancelHandle(a, t), from, count, refused);
    } else {
      CancelAfterStages(mid, from, count, refused, t);
      StagesCompose(a, from, count, refused);
    }
  }

  // ---------- Never early ----------

  // Every tick's time, in whole milliseconds, is past the one before; jumps ahead are allowed.
  ghost predicate Paced(a: Agenda, es: seq<Event>)
    decreases |es|
  {
    es != [] ==> (es[0].TickAt? ==> Truncate(es[0].wall) >= a.now + MS) && Paced(Next(a, es[0]), es[1..])
  }

  // Each tick's wall time is at least a millisecond after the one before.
  ghost predicate Spaced(last: int, es: seq<Event>)
    decreases |es|
  {
    es != [] ==>
      if es[0].TickAt? then es[0].wall >= last + MS && Spaced(es[0].wall, es[1..]) else Spaced(last, es[1..])
  }

  lemma {:induction false} SpacedTicksArePaced(a: Agenda, es: seq<Event>, last: int)
    requires a.now == Truncate(last) && Spaced(last, es)
    ensures Paced(a, es)
    decreases |es|
  {
    if es != [] {
      SpacedTicksArePaced(Next(a, es[0]), es[1..], if es[0].TickAt? then es[0].wall else last);
    }
  }

  ghost predicate SpotNotEarly(a: Agenda, t: Task) {
    t in a.plan && a.plan[t].Slot? ==>
      && a.plan[t].level < 4
      && t.fireAt < a.now + Millis(a.plan[t].due - a.ticks) + LevelTick(a.plan[t].level)
  }

  ghost predicate FiredNotEarly(a: Agenda, t: Task) {
    t in a.fires ==> forall i :: 0 <= i < |a.fires[t]| ==> Truncate(t.fireAt) <= a.fires[t][i]
  }

  ghost predicate NotEarly(a: Agenda) {
    forall t :: SpotNotEarly(a, t) && FiredNotEarly(a, t)
  }

  lemma StageNotEarly(a: Agenda, stage: nat, refused: set<Task>, t: Task)
    requires a.ticks > 0 && WholeMillis(a.now) && SpotNotEarly(a, t) && FiredNotEarly(a, t)
    ensures SpotNotEarly(Stage(a, stage, refused), t) && FiredNotEarly(Stage(a, stage, refused), t)
  {
    if Selected(a, t, stage) {
      var o := StageOutcome(a, t, stage);
      if o.Put? && o.spot.Slot? {
        PlaceBounds(t, a.now, a.ticks, stage);
      }
    }
  }

  lemma {:induction false} StagesNotEarly(a: Agenda, count: nat, refused: seq<set<Task>>, t: Task)
    requires a.ticks > 0 && WholeMillis(a.now) && SpotNotEarly(a, t) && FiredNotEarly(a, t)
    ensures SpotNotEarly(Stages(a, count, refused), t) && FiredNotEarly(Stages(a, count, refused), t)
  {
    if count > 0 {
      StagesNotEarly(a, count - 1, refused, t);
      StageNotEarly(Stages(a, count - 1, refused), count - 1, RefusedIn(refused, count - 1), t);
    }
  }

  lemma InsertNotEarly(a: Agenda, u: Task, full: bool, t: Task)
    requires u !in a.fires && SpotNotEarly(a, t) && FiredNotEarly(a, t)
    ensures SpotNotEarly(Insert(a, u, full), t) && FiredNotEarly(Insert(a, u, full), t)
  {
    var o := PlaceOutcome(u, a.now, a.ticks, 4);
    if o.Put? && o.spot.Slot? {
      PlaceBounds(u, a.now, a.ticks, 4);
    }
  }

  lemma TickNotEarly(a: Agenda, wall: int, refused: seq<set<Task>>, t: Task)
    requires Truncate(wall) >= a.now + MS && SpotNotEarly(a, t) && FiredNotEarly(a, t)
    ensures SpotNotEarly(Tick(a, wall, refused), t) && FiredNotEarly(Tick(a, wall, refused), t)
  {
    var c := Clocked(a, wall);
    assert SpotNotEarly(c, t) && FiredNotEarly(c, t);
    StagesNotEarly(c, 1 + Rollover(c.ticks), refused, t);
  }

  lemma NextNotEarly(a: Agenda, e: Event)
    requires Enabled(a, e) && NotEarly(a) && (e.TickAt? ==> Truncate(e.wall) >= a.now + MS)
    ensures NotEarly(Next(a, e))
  {
    forall t ensures SpotNotEarly(Next(a, e), t) && FiredNotEarly(Next(a, e), t) {
      assert SpotNotEarly(a, t) && FiredNotEarly(a, t);
      match e
      case Add(u, full) => InsertNotEarly(a, u, full, t);
      case CancelId(id) =>
      case CancelTask(u) =>
      case TickAt(wall, refused) => TickNotEarly(a, wall, refused, t);
    }
  }

  /** No task is fired - by a level-0 slot, a cascade, the overflow cascade or an insert - before its
      FireAt truncated to the millisecond. */
  lemma {:induction false} NeverEarly(a: Agenda, es: seq<Event>)
    requires Conserved(a) && NotEarly(a) && ValidRun(a, es) && Paced(a, es)
    ensures NotEarly(Run(a, es))
    decreases |es|
  {
    if es != [] {
      NextConserves(a, es[0]);
      NextNotEarly(a, es[0]);
      NeverEarly(Next(a, es[0]), es[1..]);
    }
  }

  lemma FromTheStart(start: int, es: seq<Event>)
    requires ValidRun(Initial(start), es) && Spaced(start, es)
    ensures var b := Run(Initial(start), es);
            forall t :: t in b.fires ==> |b.fires[t]| <= 1 && (b.fires[t] != [] ==> Truncate(t.fireAt) <= b.fires[t][0])
  {
    InitialConserved(start);
    RunConserves(Initial(start), es);
    SpacedTicksArePaced(Initial(start), es, start);
    NeverEarly(Initial(start), es);
    var b := Run(Initial(start), es);
    forall t | t in b.fires ensures |b.fires[t]| <= 1 && (b.fires[t] != [] ==> Truncate(t.fireAt) <= b.fires[t][0]) {
      assert Accounted(b, t) && FiredNotEarly(b, t);
    }
  }

  // ---------- Bounded lateness ----------

  predicate NotRefused(refused: seq<set<Task>>, t: Task) {
    forall r :: r in refused ==> t !in r
  }

  // Nobody cancels or replaces the task, and no full slot refuses it.
  predicate Undisturbed(e: Event, t: Task) {
    match e
    case Add(u, _) => u.id != t.id
    case CancelId(id) => id != t.id
    case CancelTask(u) => u != t
    case TickAt(_, refused) => NotRefused(refused, t)
  }

  // How far the wall clock has run ahead of the tick count; it grows when ticks are dropped.
  function Offset(a: Agenda): int {
    a.now - Millis(a.ticks)
  }

  /** The level where `place` first puts the task; the overflow heap feeds level 3. */
  function FirstLevel(delay: int): (level: nat)
    ensures level < 4
  {
    if delay < MAX_WHEEL_SPAN then LevelOf(delay) else 3
  }

  /** What is known of one task from its insertion on: `level` is its first level, `offset` the wheel's
      offset then, and `slack` what an overflow cascade may round away. */
  datatype Promise = Promise(level: nat, offset: int, slack: int)

  ghost predicate Waiting(a: Agenda, t: Task, p: Promise) {
    && t in a.plan
    && match a.plan[t]
       case Overflow => p.level == 3 && p.slack == MS - 1 && t.fireAt >= a.now + MAX_WHEEL_SPAN
       case Slot(l, due) =>
         && l <= p.level < 4
         && Millis(due) + p.offset <= t.fireAt + LevelTick(l)
         && if l == 0 then t.fireAt <= a.now + Millis(due - a.ticks) + p.slack
            else t.fireAt < a.now + Millis(due - a.ticks) + LevelTick(l)
  }

  ghost predicate FiredInTime(a: Agenda, t: Task, p: Promise) {
    && t !in a.plan && t in a.fires && |a.fires[t]| == 1 && p.level < 4
    && t.fireAt - p.slack <= a.fires[t][0] <= t.fireAt + LevelTick(p.level) + Offset(a) - p.offset
  }

  ghost predicate Tracked(a: Agenda, t: Task, p: Promise) {
    && t in a.fires && (t in a.plan ==> a.fires[t] == [])
    && p.offset <= Offset(a) && (p.slack == 0 || p.slack == MS - 1)
    && (Waiting(a, t, p) || FiredInTime(a, t, p))
  }

  // The clock has moved on, and the overflow cascade has not run yet.
  ghost predicate TrackedBefore(a: Agenda, t: Task, p: Promise) {
    && t in a.fires && (t in a.plan ==> a.fires[t] == [])
    && p.offset <= Offset(a) && (p.slack == 0 || p.slack == MS - 1)
    && if t in a.plan && a.plan[t] == Overflow then
         && p.level == 3 && p.slack == MS - 1
         && t.fireAt + Offset(a) - p.offset >= a.now + MAX_WHEEL_SPAN - MS
         && t.fireAt != a.now + MAX_WHEEL_SPAN
       else Waiting(a, t, p) || FiredInTime(a, t, p)
  }

  lemma WiderLevels(l: nat, level: nat)
    requires l <= level < 4
    ensures LevelTick(l) <= LevelTick(level)
  {
  }

  lemma OverflowTracks(a: Agenda, refused: set<Task>, t: Task, p: Promise)
    requires a.ticks > 0 && t !in refused && TrackedBefore(a, t, p)
    ensures Tracked(Stage(a, 0, refused), t, p)
  {
    if t in a.plan && Selected(a, t, 0) {
      var o := PlaceOutcome(t, a.now, a.ticks, 0);
      if o.Put? {
        PlaceBounds(t, a.now, a.ticks, 0);
      }
    }
  }

  // A cascaded task goes to a strictly lower level or fires.
  lemma CascadeTracks(a: Agenda, stage: nat, refused: set<Task>, t: Task, p: Promise)
    requires a.ticks > 0 && 0 < stage && t !in refused && Tracked(a, t, p)
    ensures Tracked(Stage(a, stage, refused), t, p)
  {
    if t in a.plan && Selected(a, t, stage) {
      WiderLevels(stage - 1, p.level);
      var o := StageOutcome(a, t, stage);
      if o.Put? {
        PlaceBounds(t, a.now, a.ticks, stage);
      }
    }
  }

  lemma {:induction false} StagesTrack(a: Agenda, count: nat, refused: seq<set<Task>>, t: Task, p: Promise)
    requires a.ticks > 0 && NotRefused(refused, t) && count > 0 && TrackedBefore(a, t, p)
    ensures Tracked(Stages(a, count, refused), t, p)
  {
    if count == 1 {
      OverflowTracks(a, RefusedIn(refused, 0), t, p);
    } else {
      StagesTrack(a, count - 1, refused, t, p);
      CascadeTracks(Stages(a, count - 1, refused), count - 1, RefusedIn(refused, count - 1), t, p);
    }
  }

  lemma TickTracks(a: Agenda, wall: int, refused: seq<set<Task>>, t: Task, p: Promise)
    requires NotRefused(refused, t) && Tracked(a, t, p) && Truncate(wall) >= a.now + MS && !Stuck(a, wall)
    ensures Tracked(Tick(a, wall, refused), t, p)
  {
    var c := Clocked(a, wall);
    assert TrackedBefore(c, t, p);
    StagesTrack(c, 1 + Rollover(c.ticks), refused, t, p);
  }

  lemma NextTracks(a: Agenda, e: Event, t: Task, p: Promise)
    requires Conserved(a) && Enabled(a, e) && Undisturbed(e, t) && Tracked(a, t, p)
    requires e.TickAt? ==> Truncate(e.wall) >= a.now + MS
    ensures Tracked(Next(a, e), t, p)
  {
    match e
    case Add(u, full) =>
      assert u.id in a.index ==> IndexEntry(a, u.id);
    case CancelId(id) =>
      assert id in a.index ==> IndexEntry(a, id);
    case CancelTask(u) =>
    case TickAt(wall, refused) => TickTracks(a, wall, refused, t, p);
  }

  lemma {:induction false} RunTracks(a: Agenda, es: seq<Event>, t: Task, p: Promise)
    requires Conserved(a) && ValidRun(a, es) && Paced(a, es)
    requires (forall e :: e in es ==> Undisturbed(e, t)) && Tracked(a, t, p)
    ensures Tracked(Run(a, es), t, p)
    decreases |es|
  {
    if es != [] {
      NextConserves(a, es[0]);
      NextTracks(a, es[0], t, p);
      RunTracks(Next(a, es[0]), es[1..], t, p);
    }
  }

  lemma StillAhead(b: Agenda, t: Task, p: Promise)
    requires Waiting(b, t, p) && LiveTask(b, t, 4) && p.offset <= Offset(b)
    ensures p.level < 4 && b.now < t.fireAt + LevelTick(p.level) + Offset(b) - p.offset
  {
    match b.plan[t]
    case Overflow =>
    case Slot(l, due) =>
      WiderLevels(l, p.level);
      var w := Width(l);
      assert due == w * (due / w);
      assert due > b.ticks;
  }

  /** A task that is neither cancelled, replaced nor refused fires exactly once, not before FireAt, and at most
      one slot width of its first level after it plus whatever the wall clock has gained on the ticks since -
      from every cursor position and through every chain of cascades.  A task that started in the overflow
      heap may be rounded down by less than a millisecond. */
  lemma BoundedLateness(a: Agenda, t: Task, es: seq<Event>)
    requires Conserved(a) && t !in a.fires && t !in a.cancelled && t.fireAt > a.now
    requires ValidRun(Insert(a, t, false), es) && Paced(Insert(a, t, false), es)
    requires forall e :: e in es ==> Undisturbed(e, t)
    ensures var b := Run(Insert(a, t, false), es);
            var latest := t.fireAt + LevelTick(FirstLevel(t.fireAt - a.now)) + Offset(b) - Offset(a);
            && t in b.fires && |b.fires[t]| <= 1
            && (b.fires[t] != [] ==> t.fireAt - MS < b.fires[t][0] <= latest)
            && (b.fires[t] != [] && t.fireAt - a.now < MAX_WHEEL_SPAN ==> t.fireAt <= b.fires[t][0])
            && (b.now >= latest ==> |b.fires[t]| == 1)
  {
    var delay := t.fireAt - a.now;
    var p := Promise(FirstLevel(delay), Offset(a), if delay < MAX_WHEEL_SPAN then 0 else MS - 1);
    var i := Insert(a, t, false);
    NextConserves(a, Add(t, false));
    if delay < MAX_WHEEL_SPAN {
      PlaceBounds(t, a.now, a.ticks, 4);
    }
    RunTracks(i, es, t, p);
    var b := Run(i, es);
    RunConserves(i, es);
    if t in b.plan {
      assert LiveTask(b, t, 4);
      StillAhead(b, t, p);
    }
  }

  // ---------- Ticks exactly a millisecond apart ----------

  ghost predicate ExactRun(a: Agenda, es: seq<Event>)
    decreases |es|
  {
    es != [] ==> (es[0].TickAt? ==> Truncate(es[0].wall) == a.now + MS) && ExactRun(Next(a, es[0]), es[1..])
  }

  lemma {:induction false} ExactRunsKeepOffset(a: Agenda, es: seq<Event>)
    requires ExactRun(a, es)
    ensures Offset(Run(a, es)) == Offset(a) && Paced(a, es)
    decreases |es|
  {
    if es != [] {
      ExactRunsKeepOffset(Next(a, es[0]), es[1..]);
    }
  }

  /** The wall clock then gains nothing on the ticks, and the lateness is the slot width alone. */
  lemma ExactLateness(a: Agenda, t: Task, es: seq<Event>)
    requires Conserved(a) && t !in a.fires && t !in a.cancelled && 0 < t.fireAt - a.now < MAX_WHEEL_SPAN
    requires ValidRun(Insert(a, t, false), es) && ExactRun(Insert(a, t, false), es)
    requires forall e :: e in es ==> Undisturbed(e, t)
    ensures var b := Run(Insert(a, t, false), es);
            var latest := t.fireAt + LevelTick(LevelOf(t.fireAt - a.now));
            && t in b.fires && |b.fires[t]| <= 1
            && (b.fires[t] != [] ==> t.fireAt <= b.fires[t][0] <= latest)
            && (b.now >= latest ==> |b.fires[t]| == 1)
  {
    ExactRunsKeepOffset(Insert(a, t, false), es);
    BoundedLateness(a, t, es);
  }

  // ---------- The overflow cascade and its mutex ----------

  ghost predicate FarAndAligned(a: Agenda, t: Task) {
    t in a.plan && a.plan[t] == Overflow && FarAndWhole(a, t)
  }

  lemma {:induction false} BeyondHorizonStays(a: Agenda, count: nat, refused: seq<set<Task>>, t: Task)
    requires a.ticks > 0 && t in a.plan && a.plan[t] == Overflow && t.fireAt > a.now + MAX_WHEEL_SPAN
    ensures var b := Stages(a, count, refused); t in b.plan && b.plan[t] == Overflow
  {
    if count > 0 {
      BeyondHorizonStays(a, count - 1, refused, t);
    }
  }

  lemma WholeMillisecondsApart(fireAt: int, now: int)
    requires WholeMillis(fireAt) && WholeMillis(now)
    requires fireAt > now + MAX_WHEEL_SPAN && fireAt != now + MS + MAX_WHEEL_SPAN
    ensures fireAt > now + MS + MAX_WHEEL_SPAN
  {
    var f, n := fireAt / 1_000_000, now / 1_000_000;
    assert fireAt == Millis(f) && now == Millis(n);
  }

  lemma TickFarAndAligned(a: Agenda, wall: int, refused: seq<set<Task>>, t: Task)
    requires WholeMillis(a.now) && FarAndAligned(a, t) && !Stuck(a, wall) && Truncate(wall) == a.now + MS
    ensures FarAndAligned(Tick(a, wall, refused), t)
  {
    assert t.fireAt != Truncate(wall) + MAX_WHEEL_SPAN;
    WholeMillisecondsApart(t.fireAt, a.now);
    BeyondHorizonStays(Clocked(a, wall), 1 + Rollover(a.ticks + 1), refused, t);
  }

  lemma NextFarAndAligned(a: Agenda, e: Event, t: Task)
    requires Conserved(a) && Enabled(a, e) && FarAndAligned(a, t) && Undisturbed(e, t)
    requires e.TickAt? ==> Truncate(e.wall) == a.now + MS
    ensures FarAndAligned(Next(a, e), t)
  {
    assert LiveTask(a, t, 4);
    match e
    case Add(u, full) =>
      assert u.id in a.index ==> IndexEntry(a, u.id);
    case CancelId(id) =>
      assert id in a.index ==> IndexEntry(a, id);
    case CancelTask(u) =>
    case TickAt(wall, refused) => TickFarAndAligned(a, wall, refused, t);
  }

  /** With exact ticks, a live overflow task beyond the horizon whose FireAt is a whole millisecond stops the
      wheel: no run gets past the tick at which the task is exactly maxWheelSpan away. */
  lemma {:induction false} AlignedOverflowSticks(a: Agenda, t: Task, es: seq<Event>)
    requires Conserved(a) && ValidRun(a, es) && ExactRun(a, es) && FarAndAligned(a, t)
    requires forall e :: e in es ==> Undisturbed(e, t)
    ensures var b := Run(a, es);
            && FarAndAligned(b, t)
            && forall wall :: Truncate(wall) == b.now + MS == t.fireAt - MAX_WHEEL_SPAN ==> Stuck(b, wall)
    decreases |es|
  {
    if es != [] {
      NextConserves(a, es[0]);
      NextFarAndAligned(a, es[0], t);
      AlignedOverflowSticks(Next(a, es[0]), t, es[1..]);
    }
  }

  ghost predicate Unaligned(a: Agenda, t: Task) {
    t in a.plan && a.plan[t] == Overflow ==> !FarAndWhole(a, t)
  }

  predicate FarAndWhole(a: Agenda, t: Task) {
    t.fireAt > a.now + MAX_WHEEL_SPAN && WholeMillis(t.fireAt)
  }

  ghost predicate NoAlignedOverflow(a: Agenda) {
    forall t :: Unaligned(a, t)
  }

  // A task drained from a wheel slot is within that slot's width of firing, so it never goes back to overflow.
  lemma {:induction false} StagesUnaligned(a: Agenda, count: nat, refused: seq<set<Task>>, t: Task)
    requires a.ticks > 0 && WholeMillis(a.now) && SpotNotEarly(a, t) && FiredNotEarly(a, t) && Unaligned(a, t)
    ensures Unaligned(Stages(a, count, refused), t)
  {
    if count > 0 {
      StagesUnaligned(a, count - 1, refused, t);
      StagesNotEarly(a, count - 1, refused, t);
    }
  }

  // Whoever asks for a time beyond the wheel's span asks for one that is not a whole millisecond.
  ghost predicate FarAddsUnaligned(a: Agenda, es: seq<Event>)
    decreases |es|
  {
    es != [] ==>
      && (es[0].Add? ==> !FarAndWhole(a, es[0].task))
      && FarAddsUnaligned(Next(a, es[0]), es[1..])
  }

  lemma NextUnaligned(a: Agenda, e: Event, t: Task)
    requires SpotNotEarly(a, t) && FiredNotEarly(a, t) && Unaligned(a, t)
    requires WholeMillis(a.now) && (e.TickAt? ==> Truncate(e.wall) >= a.now + MS)
    requires e.Add? ==> !FarAndWhole(a, e.task)
    ensures Unaligned(Next(a, e), t)
  {
    if e.TickAt? {
      var c := Clocked(a, e.wall);
      assert SpotNotEarly(c, t) && FiredNotEarly(c, t) && Unaligned(c, t);
      StagesUnaligned(c, 1 + Rollover(c.ticks), e.refused, t);
    }
  }

  lemma UnalignedNotStuck(a: Agenda, wall: int)
    requires NoAlignedOverflow(a) && Truncate(wall) >= a.now + MS
    ensures !Stuck(a, wall)
  {
    assert WholeMillis(Truncate(wall) + MAX_WHEEL_SPAN);
    forall t | t in a.plan && a.plan[t] == Overflow ensures t.fireAt != Truncate(wall) + MAX_WHEEL_SPAN {
      assert Unaligned(a, t);
    }
  }

  /** The other half: while nobody asks for a whole millisecond further away than the wheel's span, no tick sticks. */
  lemma {:induction false} UnalignedNeverSticks(a: Agenda, es: seq<Event>, wall: int)
    requires Conserved(a) && NotEarly(a) && NoAlignedOverflow(a)
    requires ValidRun(a, es) && Paced(a, es) && FarAddsUnaligned(a, es)
    requires Truncate(wall) >= Run(a, es).now + MS
    ensures !Stuck(Run(a, es), wall)
    decreases |es|
  {
    if es == [] {
      UnalignedNotStuck(a, wall);
    } else {
      var e := es[0];
      NextConserves(a, e);
      NextNotEarly(a, e);
      forall t ensures Unaligned(Next(a, e), t) {
        assert SpotNotEarly(a, t) && FiredNotEarly(a, t) && Unaligned(a, t);
        NextUnaligned(a, e, t);
      }
      UnalignedNeverSticks(Next(a, e), es[1..], wall);
    }
  }

  predicate OnlyTicks(es: seq<Event>) {
    forall e :: e in es ==> e.TickAt?
  }

  // Left alone, with a tick each millisecond, the wheel gets to a tick that sticks.
  ghost predicate GetsStuck(a: Agenda, es: seq<Event>, wall: int) {
    && OnlyTicks(es) && ValidRun(a, es) && ExactRun(a, es)
    && Truncate(wall) == Run(a, es).now + MS && Stuck(Run(a, es), wall)
  }

  lemma {:induction false} TicksAreHarmless(a: Agenda, es: seq<Event>)
    requires OnlyTicks(es) && ExactRun(a, es)
    ensures FarAddsUnaligned(a, es) && Paced(a, es)
    decreases |es|
  {
    if es != [] {
      assert es[0] in es;
      TicksAreHarmless(Next(a, es[0]), es[1..]);
    }
  }

  // Ticks as they come, up to the one that sticks.
  lemma {:induction false} TicksUntilStuck(a: Agenda, t: Task) returns (es: seq<Event>, wall: int)
    requires Conserved(a) && FarAndAligned(a, t)
    ensures GetsStuck(a, es, wall)
    decreases t.fireAt - a.now
  {
    wall := a.now + MS;
    assert Truncate(wall) == wall;
    es := [];
    if !Stuck(a, wall) {
      TickFarAndAligned(a, wall, [], t);
      NextConserves(a, TickAt(wall, []));
      var rest, last := TicksUntilStuck(Tick(a, wall, []), t);
      OneTickMore(a, wall, rest, last);
      es, wall := [TickAt(wall, [])] + rest, last;
    }
  }

  lemma OneTickMore(a: Agenda, wall: int, rest: seq<Event>, last: int)
    requires Truncate(wall) == a.now + MS && !Stuck(a, wall) && GetsStuck(Tick(a, wall, []), rest, last)
    ensures GetsStuck(a, [TickAt(wall, [])] + rest, last)
  {
    assert ([TickAt(wall, [])] + rest)[1..] == rest;
  }

  /** Adding a task to a sound wheel makes it stick, if it is left alone and the ticks are exact, if and only if the
      task's FireAt is a whole millisecond and more than the wheel's span away. */
  lemma AddSticksExactly(a: Agenda, t: Task)
    requires Conserved(a) && NotEarly(a) && NoAlignedOverflow(a) && t !in a.fires && t !in a.cancelled
    ensures (exists es, wall :: GetsStuck(Insert(a, t, false), es, wall)) <==> FarAndWhole(a, t)
  {
    var i := Insert(a, t, false);
    NextConserves(a, Add(t, false));
    NextNotEarly(a, Add(t, false));
    if FarAndWhole(a, t) {
      var es, wall := TicksUntilStuck(i, t);
    } else if es, wall :| GetsStuck(i, es, wall) {
      TicksAreHarmless(i, es);
      forall u ensures Unaligned(i, u) {
        assert Unaligned(a, u) && SpotNotEarly(a, u) && FiredNotEarly(a, u);
        NextUnaligned(a, Add(t, false), u);
      }
      UnalignedNeverSticks(i, es, wall);
    }
  }
}
