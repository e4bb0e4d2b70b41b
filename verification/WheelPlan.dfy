/** The timing wheel seen flat: every live task carries the number of the tick at which its slot will be
    drained, so there are no cursors and no slots.

    A tick number `due` at level `l` is a multiple of the level's width; the slot that holds the task in
    the real wheel is `(due / width) % slots`.  `place` and `tick` are the source's switch and sequence of
    cascades, read over these due ticks.  Times are nanoseconds. */
module WheelPlan {

  const MS: int := 1_000_000
  const MAX_WHEEL_SPAN: int := 67_108_864_000_000  // 64 slots of lvl3Tick
  const MAX_SLOT_LEN := 100_000

  function SlotCount(level: nat): nat
    requires level < 4
  {
    if level == 0 then 256 else 64
  }

  // Milliseconds (that is, ticks) per slot.
  function Width(level: nat): nat
    requires level < 4
  {
    if level == 0 then 1 else if level == 1 then 256 else if level == 2 then 16384 else 1048576
  }

  function Millis(n: int): int {
    n * 1_000_000
  }

  predicate WholeMillis(t: int) {
    t % 1_000_000 == 0
  }

  // A level's lvlTick, in nanoseconds.
  function LevelTick(level: nat): int
    requires level < 4
  {
    if level == 0 then 1_000_000 else if level == 1 then 256_000_000
    else if level == 2 then 16_384_000_000 else 1_048_576_000_000
  }

  // Time.Truncate(time.Millisecond) rounds down.
  function Truncate(t: int): (r: int)
    ensures WholeMillis(r) && r <= t < r + 1_000_000
  {
    t - t % 1_000_000
  }

  // `uid` is the identity of the *Task; the ID may be used again by a later task.
  datatype Task = Task(uid: nat, id: string, fireAt: int)

  datatype Spot = Slot(level: nat, due: nat) | Overflow

  datatype Outcome = FireNow | Put(spot: Spot)

  /** The reading of the level's odometer digit and everything above it at tick n, while only the
      cursors below `adv` have been advanced to n and the others still show n - 1. */
  function Base(level: nat, n: nat, adv: nat): nat
    requires level < 4 && (n > 0 || adv >= 4)
  {
    if level < adv then n / Width(level) else (n - 1) / Width(level)
  }

  function DueOn(level: nat, delay: int, n: nat, adv: nat): nat
    requires level < 4 && delay > 0 && (n > 0 || adv >= 4)
  {
    (Base(level, n, adv) + delay / LevelTick(level) + 1) * Width(level)
  }

  function LevelOf(delay: int): (level: nat)
    requires delay < MAX_WHEEL_SPAN
    ensures level < 4 && (level > 0 ==> LevelTick(level) <= delay) && (level < 3 ==> delay < LevelTick(level + 1))
  {
    if delay < LevelTick(1) then 0 else if delay < LevelTick(2) then 1 else if delay < LevelTick(3) then 2 else 3
  }

  function PlaceOutcome(t: Task, now: int, n: nat, adv: nat): Outcome
    requires n > 0 || adv >= 4
  {
    var delay := t.fireAt - now;
    if delay <= 0 then FireNow
    else if delay < MAX_WHEEL_SPAN then Put(Slot(LevelOf(delay), DueOn(LevelOf(delay), delay, n, adv)))
    else Put(Overflow)
  }

  datatype Agenda = Agenda(
    now: int,
    ticks: nat,
    index: map<string, Task>,
    plan: map<Task, Spot>,       // the live tasks: in a slot or in the overflow heap, and not cancelled
    cancelled: set<Task>,
    lost: set<Task>,             // refused by a full slot
    fires: map<Task, seq<int>>)  // for every task ever inserted, the times at which its fn was started

  // ---------- The steps ----------

  /** `place` for a task that is live and in no slot; `refused` says that its slot was full. */
  function PlaceIn(a: Agenda, t: Task, adv: nat, refused: bool): Agenda
    requires t in a.fires && (a.ticks > 0 || adv >= 4)
  {
    match PlaceOutcome(t, a.now, a.ticks, adv)
    case FireNow => a.(index := a.index - {t.id}, fires := a.fires[t := a.fires[t] + [a.now]])
    case Put(spot) => if spot.Slot? && refused then a.(lost := a.lost + {t}) else a.(plan := a.plan[t := spot])
  }

  /** `insert`: a task of the same ID is cancelled first.  A task whose handle was cancelled before the
      wheel saw it is indexed but never live. */
  function Registered(a: Agenda, t: Task): Agenda {
    var prev := if t.id in a.index then {a.index[t.id]} else {};
    a.(index := a.index[t.id := t], plan := a.plan - prev, cancelled := a.cancelled + prev,
       fires := a.fires[t := []])
  }

  function Insert(a: Agenda, t: Task, refused: bool): Agenda {
    if t in a.cancelled then Registered(a, t) else PlaceIn(Registered(a, t), t, 4, refused)
  }

  function Cancel(a: Agenda, id: string): Agenda {
    if id in a.index then
      a.(plan := a.plan - {a.index[id]}, cancelled := a.cancelled + {a.index[id]}, index := a.index - {id})
    else a
  }

  function CancelHandle(a: Agenda, t: Task): Agenda {
    a.(plan := a.plan - {t}, cancelled := a.cancelled + {t})
  }

  /** Stage 0 of a tick takes the overflow tasks within the horizon; stage l + 1 drains level l. */
  predicate Selected(a: Agenda, t: Task, stage: nat) {
    && t in a.plan
    && if stage == 0 then a.plan[t] == Overflow && t.fireAt <= a.now + MAX_WHEEL_SPAN
       else a.plan[t] == Slot(stage - 1, a.ticks)
  }

  // Level 0 fires what it drains; every other stage places it again.
  function StageOutcome(a: Agenda, t: Task, stage: nat): Outcome
    requires a.ticks > 0
  {
    if stage == 1 then FireNow else PlaceOutcome(t, a.now, a.ticks, stage)
  }

  predicate Fired(a: Agenda, t: Task, stage: nat)
    requires a.ticks > 0
  {
    Selected(a, t, stage) && StageOutcome(a, t, stage) == FireNow
  }

  predicate Refused(a: Agenda, t: Task, stage: nat, refused: set<Task>)
    requires a.ticks > 0
  {
    Selected(a, t, stage) && t in refused && StageOutcome(a, t, stage).Put? && StageOutcome(a, t, stage).spot.Slot?
  }

  /** A stage that has taken its selected tasks in hand and has dealt with those in `done`. */
  function Settle(a: Agenda, stage: nat, done: set<Task>, refused: set<Task>): Agenda
    requires a.ticks > 0
  {
    a.(plan := map t | t in a.plan && (!Selected(a, t, stage)
                         || (t in done && StageOutcome(a, t, stage).Put? && !Refused(a, t, stage, refused)))
                 :: if Selected(a, t, stage) then StageOutcome(a, t, stage).spot else a.plan[t],
       index := map id | id in a.index && !(a.index[id] in done && Fired(a, a.index[id], stage)) :: a.index[id],
       lost := a.lost + (set t | t in done && Refused(a, t, stage, refused)),
       fires := map t | t in a.fires
                 :: if t in done && Fired(a, t, stage) then a.fires[t] + [a.now] else a.fires[t])
  }

  function Stage(a: Agenda, stage: nat, refused: set<Task>): Agenda
    requires a.ticks > 0
  {
    Settle(a, stage, a.plan.Keys, refused)
  }

  function Clocked(a: Agenda, wall: int): Agenda {
    a.(now := Truncate(wall), ticks := a.ticks + 1)
  }

  // How many levels roll over at tick n: level 0 always, level l when every level below it is at slot 0.
  function Rollover(n: nat): (levels: nat) {
    if n % Width(1) != 0 then 1 else if n % Width(2) != 0 then 2 else if n % Width(3) != 0 then 3 else 4
  }

  function RefusedIn(refused: seq<set<Task>>, stage: nat): set<Task> {
    if stage < |refused| then refused[stage] else {}
  }

  function Stages(a: Agenda, count: nat, refused: seq<set<Task>>): (b: Agenda)
    requires a.ticks > 0
    ensures b.ticks == a.ticks && b.now == a.now && b.cancelled == a.cancelled
    decreases count
  {
    if count == 0 then a else Stage(Stages(a, count - 1, refused), count - 1, RefusedIn(refused, count - 1))
  }

  /** One tick: the clock, the overflow cascade, level 0, and then the levels that roll over.  `refused` has
      one set a stage: the tasks that found their slot full. */
  function Tick(a: Agenda, wall: int, refused: seq<set<Task>>): Agenda {
    Stages(Clocked(a, wall), 1 + Rollover(a.ticks + 1), refused)
  }

  /** The overflow cascade would push a task back into the heap whose mutex it holds. */
  ghost predicate Stuck(a: Agenda, wall: int) {
    exists t :: t in a.plan && a.plan[t] == Overflow && t.fireAt == Truncate(wall) + MAX_WHEEL_SPAN
  }
}
