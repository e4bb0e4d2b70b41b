/** When the timing wheel fires a task, in closed form, for ticks exactly a millisecond apart.

    A task waits in the overflow heap until it is within the wheel's span, then in one slot, and after that, if
    time is left when the slot is drained, in one more.  The tick at which it fires follows from the delay and from
    the tick count at insertion alone. */
module WheelTiming {
  import opened WheelPlan
  import opened WheelRuns

  // ---------- The closed form ----------

  // The tick at which the task gets its first slot.
  function PlacedAt(delay: int, n: nat): (m: nat)
    requires delay > 0
    ensures m >= n
  {
    if delay < MAX_WHEEL_SPAN then n else n + (delay - MAX_WHEEL_SPAN) / MS + 1
  }

  function FirstDrain(delay: int, n: nat): nat
    requires delay > 0
  {
    if delay < MAX_WHEEL_SPAN then DueOn(LevelOf(delay), delay, n, 4)
    else
      var m := PlacedAt(delay, n);
      DueOn(3, delay - Millis(m - n), m, 0)
  }

  // What is left of the delay when the first slot is drained.
  function Left(delay: int, n: nat): int
    requires delay > 0
  {
    delay - Millis(FirstDrain(delay, n) - n)
  }

  function FireTick(delay: int, n: nat): nat
    requires delay > 0
  {
    var left := Left(delay, n);
    if left <= 0 || left >= MAX_WHEEL_SPAN then FirstDrain(delay, n)
    else FirstDrain(delay, n) + (left / LevelTick(LevelOf(left)) + 1) * Width(LevelOf(left))
  }

  // The first slot is drained less than its width early and at most its width late.
  lemma FirstDrainBounds(delay: int, n: nat)
    requires delay > 0
    ensures FirstDrain(delay, n) > PlacedAt(delay, n) && FirstDrain(delay, n) % Width(FirstLevel(delay)) == 0
    ensures -LevelTick(FirstLevel(delay)) <= Left(delay, n) < LevelTick(FirstLevel(delay))
    ensures FirstLevel(delay) == 0 ==> Left(delay, n) < 0
  {
    var m := PlacedAt(delay, n);
    var t := Task(0, "", delay);
    FirstPlacing(delay, n);
    PlaceInWindow(t, Millis(m - n), m, if delay < MAX_WHEEL_SPAN then 4 else 0);
    PlaceBounds(t, Millis(m - n), m, if delay < MAX_WHEEL_SPAN then 4 else 0);
    WindowIsAhead(FirstDrain(delay, n), FirstLevel(delay), m, if delay < MAX_WHEEL_SPAN then 4 else 0);
    if FirstLevel(delay) == 0 {
      assert Millis(FirstDrain(delay, n) - n) == Millis(delay / 1_000_000 + 1);
    }
  }

  // The first slot is the one `place` picks when the task comes within the span.
  lemma FirstPlacing(delay: int, n: nat)
    requires delay > 0
    ensures var m := PlacedAt(delay, n);
            PlaceOutcome(Task(0, "", delay), Millis(m - n), m, if delay < MAX_WHEEL_SPAN then 4 else 0)
            == Put(Slot(FirstLevel(delay), FirstDrain(delay, n)))
  {
  }

  lemma WindowIsAhead(due: nat, level: nat, n: nat, adv: nat)
    requires level < 4 && (adv == 4 || (adv == 0 && n > 0 && level == 3))
    requires InWindow(Slot(level, due), n, adv)
    ensures due > n || (adv == 0 && due == n)
  {
    match level
    case 0 =>
    case 1 =>
    case 2 =>
    case 3 =>
  }

  /** A task that is placed a second time goes to a lower level, and its second slot is drained strictly after
      FireAt: there is no third. */
  lemma SecondDrain(left: int, level: nat, n: nat)
    requires n > 0 && 0 < level < 4 && 0 < left < LevelTick(level) && n % Width(level) == 0
    ensures var l := LevelOf(left); var due := n + (left / LevelTick(l) + 1) * Width(l);
            && l < level && DueOn(l, left, n, level + 1) == due
            && n < due && due % Width(l) == 0
            && left < Millis(due - n) <= left + LevelTick(l)
  {
    var l := LevelOf(left);
    Finer(n);
    WholeSlots(l, n, left / LevelTick(l) + 1);
    NextSlot(l, left);
  }

  // Counting slots from a boundary.
  lemma WholeSlots(l: nat, n: nat, slots: nat)
    requires l < 4 && n % Width(l) == 0
    ensures (n / Width(l) + slots) * Width(l) == n + slots * Width(l) && (n + slots * Width(l)) % Width(l) == 0
  {
    match l
    case 0 =>
    case 1 =>
    case 2 =>
    case 3 =>
  }

  lemma NextSlot(l: nat, left: int)
    requires l < 4 && left > 0
    ensures left < Millis((left / LevelTick(l) + 1) * Width(l)) <= left + LevelTick(l)
  {
    match l
    case 0 =>
    case 1 =>
    case 2 =>
    case 3 =>
  }

  lemma FireTickBounds(delay: int, n: nat)
    requires delay > 0
    ensures FireTick(delay, n) >= FirstDrain(delay, n) > PlacedAt(delay, n)
    ensures FireTick(delay, n) == FirstDrain(delay, n) <==> Left(delay, n) <= 0
    ensures delay <= Millis(FireTick(delay, n) - n) <= delay + LevelTick(FirstLevel(delay))
    ensures Left(delay, n) > 0 ==> delay < Millis(FireTick(delay, n) - n) < delay + LevelTick(FirstLevel(delay))
  {
    FirstDrainBounds(delay, n);
    if Left(delay, n) > 0 {
      SecondDrain(Left(delay, n), FirstLevel(delay), FirstDrain(delay, n));
    }
  }

  // ---------- One task through the stages of a tick ----------

  // In no stage's selection: it is not due, and not within the horizon if it is in the overflow heap.
  predicate Idle(a: Agenda, t: Task) {
    t in a.plan ==>
      match a.plan[t]
      case Overflow => t.fireAt > a.now + MAX_WHEEL_SPAN
      case Slot(_, due) => due != a.ticks
  }

  // Not fired yet, and waiting at this spot.
  predicate WaitsAt(b: Agenda, t: Task, spot: Spot, fires: seq<int>) {
    t in b.plan && b.plan[t] == spot && t in b.fires && b.fires[t] == fires
  }

  // This stage takes tasks from elsewhere.
  predicate PassesBy(a: Agenda, t: Task, spot: Spot, stage: nat) {
    if stage == 0 then spot == Overflow ==> t.fireAt > a.now + MAX_WHEEL_SPAN else spot != Slot(stage - 1, a.ticks)
  }

  ghost predicate WaitsAfter(a: Agenda, count: nat, refused: seq<set<Task>>, t: Task, spot: Spot, fires: seq<int>)
    requires a.ticks > 0
  {
    WaitsAt(Stages(a, count, refused), t, spot, fires)
  }

  lemma StagePassesBy(a: Agenda, count: nat, refused: seq<set<Task>>, t: Task, spot: Spot, fires: seq<int>)
    requires a.ticks > 0 && WaitsAfter(a, count, refused, t, spot, fires) && PassesBy(a, t, spot, count)
    ensures WaitsAfter(a, count + 1, refused, t, spot, fires)
  {
  }

  lemma StagesPassBy(a: Agenda, from: nat, count: nat, refused: seq<set<Task>>, t: Task, spot: Spot, fires: seq<int>)
    requires a.ticks > 0 && from <= count && WaitsAfter(a, from, refused, t, spot, fires)
    requires forall stage :: from <= stage < count ==> PassesBy(a, t, spot, stage)
    ensures WaitsAfter(a, count, refused, t, spot, fires)
  {
    for i := from to count
      invariant WaitsAfter(a, i, refused, t, spot, fires)
    {
      StagePassesBy(a, i, refused, t, spot, fires);
    }
  }

  lemma IdleThroughStages(a: Agenda, count: nat, refused: seq<set<Task>>, t: Task)
    requires a.ticks > 0 && t in a.plan && t in a.fires && Idle(a, t)
    ensures WaitsAt(Stages(a, count, refused), t, a.plan[t], a.fires[t])
  {
    StagesPassBy(a, 0, count, refused, t, a.plan[t], a.fires[t]);
  }

  // Before its own stage comes, nothing happens to a task.
  lemma UntilItsStage(a: Agenda, refused: seq<set<Task>>, t: Task, stage: nat)
    requires a.ticks > 0 && t in a.fires && Selected(a, t, stage)
    ensures WaitsAt(Stages(a, stage, refused), t, a.plan[t], a.fires[t])
    ensures Selected(Stages(a, stage, refused), t, stage)
  {
    StagesPassBy(a, 0, stage, refused, t, a.plan[t], a.fires[t]);
  }

  // Started, and out of every slot.
  predicate HasFired(b: Agenda, t: Task, fires: seq<int>) {
    t in b.fires && t !in b.plan && b.fires[t] == fires
  }

  lemma StageFires(a: Agenda, stage: nat, refused: set<Task>, t: Task)
    requires a.ticks > 0 && t in a.fires && Selected(a, t, stage) && StageOutcome(a, t, stage) == FireNow
    ensures HasFired(Stage(a, stage, refused), t, a.fires[t] + [a.now])
  {
  }

  lemma StageAfterFiring(a: Agenda, count: nat, refused: seq<set<Task>>, t: Task, fires: seq<int>)
    requires a.ticks > 0 && HasFired(Stages(a, count, refused), t, fires)
    ensures HasFired(Stages(a, count + 1, refused), t, fires)
  {
  }

  // Fired by its stage.
  lemma FiredInItsStage(a: Agenda, count: nat, refused: seq<set<Task>>, t: Task, stage: nat)
    requires a.ticks > 0 && t in a.fires && Selected(a, t, stage) && stage < count
    requires StageOutcome(a, t, stage) == FireNow
    ensures HasFired(Stages(a, count, refused), t, a.fires[t] + [a.now])
  {
    UntilItsStage(a, refused, t, stage);
    StageFires(Stages(a, stage, refused), stage, RefusedIn(refused, stage), t);
    for i := stage + 1 to count
      invariant HasFired(Stages(a, i, refused), t, a.fires[t] + [a.now])
    {
      StageAfterFiring(a, i, refused, t, a.fires[t] + [a.now]);
    }
  }

  lemma StageMoves(a: Agenda, stage: nat, refused: set<Task>, t: Task, spot: Spot)
    requires a.ticks > 0 && t in a.fires && Selected(a, t, stage) && t !in refused
    requires StageOutcome(a, t, stage) == Put(spot)
    ensures WaitsAt(Stage(a, stage, refused), t, spot, a.fires[t])
  {
  }

  // Put by its stage into a slot that is not drained at this tick.
  lemma MovedInItsStage(a: Agenda, count: nat, refused: seq<set<Task>>, t: Task, stage: nat, spot: Spot)
    requires a.ticks > 0 && t in a.fires && Selected(a, t, stage) && stage < count && NotRefused(refused, t)
    requires StageOutcome(a, t, stage) == Put(spot) && spot.Slot? && spot.due != a.ticks
    ensures WaitsAt(Stages(a, count, refused), t, spot, a.fires[t])
  {
    UntilItsStage(a, refused, t, stage);
    StageMoves(Stages(a, stage, refused), stage, RefusedIn(refused, stage), t, spot);
    StagesPassBy(a, stage + 1, count, refused, t, spot, a.fires[t]);
  }

  // By the level whose slot it waits in, when that is drained.
  lemma FiredByItsLevel(c: Agenda, refused: seq<set<Task>>, t: Task, level: nat)
    requires c.ticks > 0 && t in c.fires && level < 4 && c.ticks % Width(level) == 0 && t.fireAt <= c.now
    requires t in c.plan && c.plan[t] == Slot(level, c.ticks)
    ensures HasFired(Stages(c, 1 + Rollover(c.ticks), refused), t, c.fires[t] + [c.now])
  {
    RolloverWidths(c.ticks, level);
    FiredInItsStage(c, 1 + Rollover(c.ticks), refused, t, level + 1);
  }

  lemma MovedByItsLevel(c: Agenda, refused: seq<set<Task>>, t: Task, level: nat, spot: Spot)
    requires c.ticks > 0 && t in c.fires && 0 < level < 4 && c.ticks % Width(level) == 0 && NotRefused(refused, t)
    requires t in c.plan && c.plan[t] == Slot(level, c.ticks)
    requires PlaceOutcome(t, c.now, c.ticks, level + 1) == Put(spot) && spot.Slot? && spot.due != c.ticks
    ensures WaitsAt(Stages(c, 1 + Rollover(c.ticks), refused), t, spot, c.fires[t])
  {
    RolloverWidths(c.ticks, level);
    MovedInItsStage(c, 1 + Rollover(c.ticks), refused, t, level + 1, spot);
  }

  // ---------- One task through a run ----------

  // Where a task that was added at tick n with this delay is at tick k, until it fires.
  function SpotAt(delay: int, n: nat, k: nat): Spot
    requires delay > 0 && n <= k < FireTick(delay, n)
  {
    if k < PlacedAt(delay, n) then Overflow
    else if k < FirstDrain(delay, n) then Slot(FirstLevel(delay), FirstDrain(delay, n))
    else
      FireTickBounds(delay, n);
      FirstDrainBounds(delay, n);
      Slot(LevelOf(Left(delay, n)), FireTick(delay, n))
  }

  // `n` is the tick count at its insertion; the wheel's time was FireAt - delay then.
  ghost predicate OnCourse(a: Agenda, t: Task, delay: int, n: nat)
    requires delay > 0
  {
    && a.ticks >= n && a.now == t.fireAt - delay + Millis(a.ticks - n) && t in a.fires
    && if a.ticks < FireTick(delay, n) then t in a.plan && a.plan[t] == SpotAt(delay, n, a.ticks) && a.fires[t] == []
       else t !in a.plan && a.fires[t] == [t.fireAt - delay + Millis(FireTick(delay, n) - n)]
  }

  lemma PlaceIsCourse(t: Task, now: int, n: nat)
    requires t.fireAt > now
    ensures var delay := t.fireAt - now;
            n < FireTick(delay, n) && PlaceOutcome(t, now, n, 4) == Put(SpotAt(delay, n, n))
  {
    FireTickBounds(t.fireAt - now, n);
    FirstDrainBounds(t.fireAt - now, n);
  }

  lemma IdleAt(a: Agenda, wall: int, t: Task, delay: int, n: nat)
    requires delay > 0 && OnCourse(a, t, delay, n) && Truncate(wall) == a.now + MS && !Stuck(a, wall) && t in a.plan
    requires a.ticks + 1 !in {PlacedAt(delay, n), FirstDrain(delay, n), FireTick(delay, n)}
    ensures Idle(Clocked(a, wall), t)
    ensures a.ticks + 1 < FireTick(delay, n) && SpotAt(delay, n, a.ticks + 1) == a.plan[t]
  {
    FireTickBounds(delay, n);
    if a.ticks < PlacedAt(delay, n) {
      assert t.fireAt != Truncate(wall) + MAX_WHEEL_SPAN;
      BeforePlacing(delay, n, a.ticks + 1);
    }
  }

  // Until then the task is at least the wheel's span away.
  lemma BeforePlacing(delay: int, n: nat, k: nat)
    requires delay > 0 && n <= k < PlacedAt(delay, n)
    ensures delay - Millis(k - n) >= MAX_WHEEL_SPAN
  {
  }

  // Ticks that leave the task where it is.
  lemma IdleTick(a: Agenda, wall: int, refused: seq<set<Task>>, t: Task, delay: int, n: nat)
    requires delay > 0 && OnCourse(a, t, delay, n) && Truncate(wall) == a.now + MS && !Stuck(a, wall)
    requires a.ticks + 1 !in {PlacedAt(delay, n), FirstDrain(delay, n), FireTick(delay, n)}
    ensures OnCourse(Tick(a, wall, refused), t, delay, n)
  {
    var c := Clocked(a, wall);
    if t in a.plan {
      IdleAt(a, wall, t, delay, n);
      IdleThroughStages(c, 1 + Rollover(c.ticks), refused, t);
    } else {
      StagesSealed(c, 1 + Rollover(c.ticks), refused, t);
    }
  }

  // The tick at which an overflow task comes within the span.
  lemma PlacingTick(a: Agenda, wall: int, refused: seq<set<Task>>, t: Task, delay: int, n: nat)
    requires delay > 0 && OnCourse(a, t, delay, n) && Truncate(wall) == a.now + MS && NotRefused(refused, t)
    requires a.ticks + 1 == PlacedAt(delay, n)
    ensures OnCourse(Tick(a, wall, refused), t, delay, n)
  {
    var c := Clocked(a, wall);
    FireTickBounds(delay, n);
    FirstDrainBounds(delay, n);
    assert PlaceOutcome(t, c.now, c.ticks, 0) == Put(Slot(3, FirstDrain(delay, n)));
    MovedInItsStage(c, 1 + Rollover(c.ticks), refused, t, 0, Slot(3, FirstDrain(delay, n)));
  }

  // What its stage decides when the first slot is drained with delay left.
  lemma SecondPlacing(t: Task, now: int, delay: int, n: nat)
    requires delay > 0 && Left(delay, n) > 0 && now == t.fireAt - Left(delay, n)
    ensures var k := FirstDrain(delay, n); var level := FirstLevel(delay);
            && level > 0 && k % Width(level) == 0 && n < k < FireTick(delay, n)
            && PlaceOutcome(t, now, k, level + 1) == Put(SpotAt(delay, n, k))
            && SpotAt(delay, n, k) == Slot(LevelOf(Left(delay, n)), FireTick(delay, n))
  {
    FireTickBounds(delay, n);
    FirstDrainBounds(delay, n);
    SecondDrain(Left(delay, n), FirstLevel(delay), FirstDrain(delay, n));
  }

  // The tick at which its first slot is drained, with delay left.
  lemma MovingTick(a: Agenda, wall: int, refused: seq<set<Task>>, t: Task, delay: int, n: nat)
    requires delay > 0 && OnCourse(a, t, delay, n) && Truncate(wall) == a.now + MS && NotRefused(refused, t)
    requires a.ticks + 1 == FirstDrain(delay, n) && Left(delay, n) > 0 && a.ticks >= PlacedAt(delay, n)
    ensures OnCourse(Tick(a, wall, refused), t, delay, n)
  {
    var c := Clocked(a, wall);
    SecondPlacing(t, c.now, delay, n);
    MovedByItsLevel(c, refused, t, FirstLevel(delay), SpotAt(delay, n, c.ticks));
  }

  // The slot it waits in just before it fires.
  lemma LastSlot(delay: int, n: nat) returns (level: nat)
    requires delay > 0
    ensures level < 4 && PlacedAt(delay, n) < FireTick(delay, n) && FireTick(delay, n) % Width(level) == 0
    ensures SpotAt(delay, n, FireTick(delay, n) - 1) == Slot(level, FireTick(delay, n))
    ensures delay <= Millis(FireTick(delay, n) - n)
  {
    FireTickBounds(delay, n);
    FirstDrainBounds(delay, n);
    if Left(delay, n) > 0 {
      level := LevelOf(Left(delay, n));
      SecondDrain(Left(delay, n), FirstLevel(delay), FirstDrain(delay, n));
    } else {
      level := FirstLevel(delay);
    }
  }

  // A tick that drains its slot when its time has come.
  lemma DrainingTick(a: Agenda, wall: int, refused: seq<set<Task>>, t: Task, level: nat)
    requires t in a.plan && a.plan[t] == Slot(level, a.ticks + 1) && t in a.fires && a.fires[t] == []
    requires level < 4 && (a.ticks + 1) % Width(level) == 0
    requires Truncate(wall) == a.now + MS && t.fireAt <= a.now + MS
    ensures var b := Tick(a, wall, refused);
            HasFired(b, t, [a.now + MS]) && b.ticks == a.ticks + 1 && b.now == a.now + MS
  {
    FiredByItsLevel(Clocked(a, wall), refused, t, level);
  }

  // The tick at which its last slot is drained.
  lemma FiringTick(a: Agenda, wall: int, refused: seq<set<Task>>, t: Task, delay: int, n: nat)
    requires delay > 0 && OnCourse(a, t, delay, n) && Truncate(wall) == a.now + MS
    requires a.ticks + 1 == FireTick(delay, n)
    ensures OnCourse(Tick(a, wall, refused), t, delay, n)
  {
    var level := LastSlot(delay, n);
    DrainingTick(a, wall, refused, t, level);
  }

  lemma TickOnCourse(a: Agenda, wall: int, refused: seq<set<Task>>, t: Task, delay: int, n: nat)
    requires delay > 0 && OnCourse(a, t, delay, n) && Truncate(wall) == a.now + MS && !Stuck(a, wall)
    requires NotRefused(refused, t)
    ensures OnCourse(Tick(a, wall, refused), t, delay, n)
  {
    FireTickBounds(delay, n);
    if a.ticks + 1 == FireTick(delay, n) {
      FiringTick(a, wall, refused, t, delay, n);
    } else if a.ticks + 1 == FirstDrain(delay, n) {
      MovingTick(a, wall, refused, t, delay, n);
    } else if a.ticks + 1 == PlacedAt(delay, n) {
      PlacingTick(a, wall, refused, t, delay, n);
    } else {
      IdleTick(a, wall, refused, t, delay, n);
    }
  }

  lemma NextOnCourse(a: Agenda, e: Event, t: Task, delay: int, n: nat)
    requires delay > 0 && Conserved(a) && Enabled(a, e) && Undisturbed(e, t) && OnCourse(a, t, delay, n)
    requires e.TickAt? ==> Truncate(e.wall) == a.now + MS
    ensures OnCourse(Next(a, e), t, delay, n)
  {
    match e
    case Add(u, full) =>
      assert u.id in a.index ==> IndexEntry(a, u.id);
    case CancelId(id) =>
      assert id in a.index ==> IndexEntry(a, id);
    case CancelTask(u) =>
    case TickAt(wall, refused) => TickOnCourse(a, wall, refused, t, delay, n);
  }

  lemma {:induction false} RunOnCourse(a: Agenda, es: seq<Event>, t: Task, delay: int, n: nat)
    requires delay > 0 && Conserved(a) && ValidRun(a, es) && ExactRun(a, es)
    requires (forall e :: e in es ==> Undisturbed(e, t)) && OnCourse(a, t, delay, n)
    ensures OnCourse(Run(a, es), t, delay, n)
    decreases |es|
  {
    if es != [] {
      NextConserves(a, es[0]);
      NextOnCourse(a, es[0], t, delay, n);
      RunOnCourse(Next(a, es[0]), es[1..], t, delay, n);
    }
  }

  /** With ticks a millisecond apart, a task that is neither cancelled, replaced nor refused fires at this moment, at
      no other, and only once: every chain of cascades comes down to FireTick. */
  lemma FiresExactlyAt(a: Agenda, t: Task, es: seq<Event>)
    requires Conserved(a) && t !in a.fires && t !in a.cancelled && t.fireAt > a.now
    requires ValidRun(Insert(a, t, false), es) && ExactRun(Insert(a, t, false), es)
    requires forall e :: e in es ==> Undisturbed(e, t)
    ensures var b := Run(Insert(a, t, false), es);
            var moment := a.now + Millis(FireTick(t.fireAt - a.now, a.ticks) - a.ticks);
            t in b.fires && b.fires[t] == if b.now >= moment then [moment] else []
  {
    NextConserves(a, Add(t, false));
    InsertOnCourse(a, t);
    RunOnCourse(Insert(a, t, false), es, t, t.fireAt - a.now, a.ticks);
  }

  lemma InsertOnCourse(a: Agenda, t: Task)
    requires t !in a.fires && t !in a.cancelled && t.fireAt > a.now
    ensures OnCourse(Insert(a, t, false), t, t.fireAt - a.now, a.ticks)
  {
    PlaceIsCourse(t, a.now, a.ticks);
  }

  // ---------- How late that is ----------

  /** It fires on time if and only if its first level is not the lowest, that level's cursor is off its slot boundary,
      and FireAt is a boundary. */
  lemma OnTimeExactly(delay: int, n: nat)
    requires 0 < delay < MAX_WHEEL_SPAN
    ensures var l := LevelOf(delay);
            Millis(FireTick(delay, n) - n) == delay
            <==> l > 0 && n % Width(l) != 0 && (Millis(n) + delay) % LevelTick(l) == 0
  {
    FireTickBounds(delay, n);
    DrainedOnTime(delay, n);
  }

  lemma DrainedOnTime(delay: int, n: nat)
    requires 0 < delay < MAX_WHEEL_SPAN
    ensures var l := LevelOf(delay);
            Left(delay, n) == 0 <==> l > 0 && n % Width(l) != 0 && (Millis(n) + delay) % LevelTick(l) == 0
  {
    match LevelOf(delay)
    case 0 =>
    case 1 => DrainedAtBoundary(256, delay, n);
    case 2 => DrainedAtBoundary(16384, delay, n);
    case 3 => DrainedAtBoundary(1048576, delay, n);
  }

  // Both halves of the sum are remainders, and together they fill a slot exactly or not at all.
  lemma DrainedAtBoundary(w: nat, delay: int, n: nat)
    requires delay > 0 && (w == 256 || w == 16384 || w == 1048576)
    ensures Millis((n / w + delay / Millis(w) + 1) * w - n) == delay
            <==> n % w != 0 && (Millis(n) + delay) % Millis(w) == 0
  {
    var q, r, p, d := n / w, n % w, delay / Millis(w), delay % Millis(w);
    BoundaryLeft(w, q, r, p, d);
    TwoRemainders(Millis(w), q + p, Millis(r), d);
  }

  lemma BoundaryLeft(w: nat, q: int, r: int, p: int, d: int)
    requires w == 256 || w == 16384 || w == 1048576
    ensures Millis((q + p + 1) * w - (w * q + r)) - (Millis(w) * p + d) == Millis(w) - Millis(r) - d
    ensures Millis(w * q + r) + (Millis(w) * p + d) == Millis(w) * (q + p) + (Millis(r) + d)
  {
  }

  lemma TwoRemainders(m: int, k: int, r: int, d: int)
    requires m == 256_000_000 || m == 16_384_000_000 || m == 1_048_576_000_000
    requires 0 <= r < m && 0 <= d < m
    ensures (m * k + (r + d)) % m == 0 <==> r + d == 0 || r + d == m
  {
    if m == 256_000_000 {
    } else if m == 16_384_000_000 {
    } else {
    }
  }

  /** It is late by a whole slot width of its first level if and only if it was added on a slot boundary of that level
      with a delay of whole slots. */
  lemma LatestExactly(delay: int, n: nat)
    requires 0 < delay < MAX_WHEEL_SPAN
    ensures var l := LevelOf(delay);
            Millis(FireTick(delay, n) - n) == delay + LevelTick(l) <==> n % Width(l) == 0 && delay % LevelTick(l) == 0
  {
    FireTickBounds(delay, n);
    FirstDrainBounds(delay, n);
    match LevelOf(delay)
    case 0 =>
    case 1 =>
    case 2 =>
    case 3 =>
  }

  // Whole milliseconds from insertion until the task is within the span, and the cursor's reading then.
  function WaitTicks(delay: int): nat
    requires delay >= MAX_WHEEL_SPAN
  {
    (delay - MAX_WHEEL_SPAN) / MS
  }

  // A task from the overflow heap has this much left when its first slot, on level 3, is drained.
  lemma OverflowLeft(delay: int, n: nat)
    requires delay >= MAX_WHEEL_SPAN
    ensures Left(delay, n) == delay % MS + Millis((n + WaitTicks(delay)) % Width(3))
  {
    var q, s := WaitTicks(delay), (delay - MAX_WHEEL_SPAN) % MS;
    var w := Width(3);
    var k, r := (n + q) / w, (n + q) % w;
    assert delay == MAX_WHEEL_SPAN + Millis(q) + s && delay % MS == s by {
      assert delay == MS * (67_108_864 + q) + s;
    }
    assert PlacedAt(delay, n) == n + q + 1;
    LastSlotFrom(k, r, n, q, s);
    assert n + q == w * k + r;
  }

  // `place` sees a delay of just under the span, at a tick whose level-3 cursor has not moved yet.
  lemma LastSlotFrom(k: nat, r: nat, n: nat, q: nat, s: int)
    requires n + q == 1048576 * k + r && r < 1048576 && 0 <= s < MS
    ensures DueOn(3, MAX_WHEEL_SPAN + s - MS, n + q + 1, 0) == (k + 64) * 1048576
    ensures MAX_WHEEL_SPAN + Millis(q) + s - Millis((k + 64) * 1048576 - n) == s + Millis(r)
  {
    assert (MAX_WHEEL_SPAN + s - MS) / 1_048_576_000_000 == 63;
  }

  // What is left then goes to one of the lower levels.
  lemma OverflowSecond(left: int)
    requires 0 < left < LevelTick(3)
    ensures var l := LevelOf(left); var late := Millis((left / LevelTick(l) + 1) * Width(l)) - left;
            0 < late <= LevelTick(2) && (late == LevelTick(2) <==> left % LevelTick(2) == 0)
  {
    match LevelOf(left)
    case 0 =>
    case 1 =>
    case 2 =>
  }

  /** A task from the overflow heap fires on time if and only if it comes within the span at a whole millisecond and
      with the level-3 cursor on its slot boundary.  It is never later than one slot width of level 2, and that late if
      and only if the millisecond is whole and level 2, but not level 3, is on its boundary. */
  lemma OverflowLateness(delay: int, n: nat)
    requires delay >= MAX_WHEEL_SPAN
    ensures var late, k := Millis(FireTick(delay, n) - n) - delay, n + WaitTicks(delay);
            && 0 <= late <= LevelTick(2)
            && (late == 0 <==> delay % MS == 0 && k % Width(3) == 0)
            && (late == LevelTick(2) <==> delay % MS == 0 && k % Width(3) != 0 && k % Width(2) == 0)
  {
    var k := n + WaitTicks(delay);
    FirstDrainBounds(delay, n);
    OverflowLeft(delay, n);
    SlotsOfLevelTwo(delay % MS, k);
    if Left(delay, n) > 0 {
      OverflowSecond(Left(delay, n));
    }
  }

  lemma SlotsOfLevelTwo(s: int, k: nat)
    requires 0 <= s < MS
    ensures (s + Millis(k % Width(3))) % LevelTick(2) == 0 <==> s == 0 && k % Width(2) == 0
  {
    var r := k % 1048576;
    assert k == 1048576 * (k / 1048576) + r && r % 16384 == k % 16384;
    var p, d := r / 16384, r % 16384;
    assert s + Millis(r) == 16_384_000_000 * p + (Millis(d) + s);
  }

  // ---------- Whole runs ----------

  /** The condition for firing at FireAt. */
  predicate OnTime(delay: int, n: nat)
    requires delay > 0
  {
    if delay < MAX_WHEEL_SPAN then
      var l := LevelOf(delay);
      l > 0 && n % Width(l) != 0 && (Millis(n) + delay) % LevelTick(l) == 0
    else
      delay == MAX_WHEEL_SPAN && n % Width(3) == 0
  }

  // The most that a task can be late, and the condition for being that late.
  function MostLate(delay: int): int
    requires delay > 0
  {
    if delay < MAX_WHEEL_SPAN then LevelTick(LevelOf(delay)) else LevelTick(2)
  }

  predicate Latest(delay: int, n: nat)
    requires delay > 0
  {
    if delay < MAX_WHEEL_SPAN then
      n % Width(LevelOf(delay)) == 0 && delay % LevelTick(LevelOf(delay)) == 0
    else
      delay == MAX_WHEEL_SPAN && n % Width(3) != 0 && n % Width(2) == 0
  }

  // It is late by MostLate at most, and by nothing or all of that under these conditions.
  ghost predicate LateAsSaid(delay: int, n: nat)
    requires delay > 0
  {
    var late := Millis(FireTick(delay, n) - n) - delay;
    && 0 <= late <= MostLate(delay)
    && (late == 0 <==> OnTime(delay, n)) && (late == MostLate(delay) <==> Latest(delay, n))
  }

  // Beyond the span, a whole number of milliseconds never gets that far (the wheel sticks first).
  lemma LatenessExactly(delay: int, n: nat)
    requires delay > 0 && (delay <= MAX_WHEEL_SPAN || delay % MS != 0)
    ensures LateAsSaid(delay, n)
  {
    if delay < MAX_WHEEL_SPAN {
      LatenessWithin(delay, n);
    } else {
      LatenessBeyond(delay, n);
    }
  }

  lemma LatenessWithin(delay: int, n: nat)
    requires 0 < delay < MAX_WHEEL_SPAN
    ensures LateAsSaid(delay, n)
  {
    FireTickBounds(delay, n);
    OnTimeExactly(delay, n);
    LatestExactly(delay, n);
  }

  lemma LatenessBeyond(delay: int, n: nat)
    requires delay == MAX_WHEEL_SPAN || (delay > MAX_WHEEL_SPAN && delay % MS != 0)
    ensures LateAsSaid(delay, n)
  {
    OverflowLateness(delay, n);
    assert delay == MAX_WHEEL_SPAN ==> WaitTicks(delay) == 0;
  }

  // A task the wheel is going to stick at has not fired, and its time has not come.
  lemma StuckNeverFires(a: Agenda, t: Task, es: seq<Event>)
    requires Conserved(a) && t !in a.fires && t !in a.cancelled && FarAndWhole(a, t)
    requires ValidRun(Insert(a, t, false), es) && ExactRun(Insert(a, t, false), es)
    requires forall e :: e in es ==> Undisturbed(e, t)
    ensures var b := Run(Insert(a, t, false), es);
            b.now < t.fireAt - MAX_WHEEL_SPAN && t in b.fires && b.fires[t] == []
  {
    var i := Insert(a, t, false);
    NextConserves(a, Add(t, false));
    AlignedOverflowSticks(i, t, es);
    RunConserves(i, es);
    assert LiveTask(Run(i, es), t, 4);
  }

  /** So "at the exact moment" holds of exactly the tasks of OnTime, and the others are late by at most MostLate, which
      exactly those of Latest attain - whatever the delay, the overflow heap included. */
  lemma OnTimeOrLate(a: Agenda, t: Task, es: seq<Event>)
    requires Conserved(a) && t !in a.fires && t !in a.cancelled && t.fireAt > a.now
    requires ValidRun(Insert(a, t, false), es) && ExactRun(Insert(a, t, false), es)
    requires forall e :: e in es ==> Undisturbed(e, t)
    ensures var b := Run(Insert(a, t, false), es);
            var delay := t.fireAt - a.now;
            var latest := t.fireAt + MostLate(delay);
            && t in b.fires
            && (b.now >= latest ==> |b.fires[t]| == 1 && t.fireAt <= b.fires[t][0] <= latest)
            && (b.fires[t] == [t.fireAt] <==> b.now >= t.fireAt && OnTime(delay, a.ticks))
            && (b.fires[t] == [latest] <==> b.now >= latest && Latest(delay, a.ticks))
  {
    var delay := t.fireAt - a.now;
    FiresExactlyAt(a, t, es);
    if FarAndWhole(a, t) {
      StuckNeverFires(a, t, es);
    } else {
      WholeOrNot(t.fireAt, a.now);
      LatenessExactly(delay, a.ticks);
    }
  }

  // The wheel's time is a whole millisecond, so the delay is one exactly if FireAt is.
  lemma WholeOrNot(fireAt: int, now: int)
    requires WholeMillis(now)
    ensures (fireAt - now) % MS == 0 <==> WholeMillis(fireAt)
  {
    var q := now / MS;
    assert now == MS * q;
  }
}
