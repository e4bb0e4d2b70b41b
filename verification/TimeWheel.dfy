/** The hierarchical timing wheel: four rings of slot lists under four cursors, an overflow heap and an ID
    index, changed in place.  Every method is proved to do to the plan what the flat steps do. */
module TimeWheels {
  import opened WheelPlan
  import opened WheelRuns
  import opened WheelCoupling
  import opened ContainerHeap

  /** Until MAX_SLOT_LEN tasks have been inserted, no slot can be full. */
  ghost predicate AllowedBy(a: Agenda, refused: seq<set<Task>>) {
    forall i :: 0 <= i < |refused| && refused[i] != {} ==> |a.fires.Keys| >= MAX_SLOT_LEN
  }

  /** A live overflow task is due exactly at the horizon. */
  ghost predicate StuckNow(a: Agenda) {
    exists t :: t in a.plan && a.plan[t] == Overflow && t.fireAt == a.now + MAX_WHEEL_SPAN
  }

  lemma StuckAtTick(a: Agenda, wall: int)
    ensures StuckNow(Clocked(a, wall)) <==> Stuck(a, wall)
  {
  }

  lemma FirstStage(c: Agenda, r: set<Task>)
    requires c.ticks > 0
    ensures Stages(c, 1, [r]) == Stage(c, 0, r)
    ensures (r != {} ==> |c.fires.Keys| >= MAX_SLOT_LEN) ==> AllowedBy(c, [r])
  {
    NextStage(c, [], r);
    assert [] + [r] == [r];
  }

  class TimeWheel {
    var now: int
    const cursor: array<int>
    const wheels: seq<array<seq<Task>>>
    var overflow: seq<Keyed<Task>>
    var overflowHeld: bool           // overflowMu, which does not nest
    var index: map<string, Task>
    var cancelled: set<Task>         // the tasks whose cancelled flag is set

    ghost var agenda: Agenda

    ghost predicate Rings()
      reads this
    {
      && cursor.Length == 4 && |wheels| == 4
      && (forall l :: 0 <= l < 4 ==> wheels[l].Length == SlotCount(l))
      && (forall l, m :: 0 <= l < m < 4 ==> wheels[l] != wheels[m])
    }

    ghost function V(): View
      requires Rings()
      reads this, cursor, wheels
    {
      View(cursor[..], [wheels[0][..], wheels[1][..], wheels[2][..], wheels[3][..]], overflow)
    }

    /** The wheel as it stands in the middle of a tick, with the cursors below `adv` advanced. */
    ghost predicate Ready(adv: nat, hand: set<Task>)
      reads this, cursor, wheels
    {
      && Rings()
      && (agenda.ticks > 0 || adv >= 4)
      && Coupled(V(), agenda, hand) && CursorsAt(V(), agenda.ticks, adv)
      && now == agenda.now && index == agenda.index && cancelled == agenda.cancelled
    }

    ghost predicate Valid()
      reads this, cursor, wheels
    {
      Ready(4, {}) && Conserved(agenda) && !overflowHeld
    }

    constructor (startTime: int)
      ensures Valid() && agenda == Initial(startTime) && fresh(cursor) && fresh(wheels)
      ensures WholeMillis(now) && now <= startTime < now + MS
    {
      now := Truncate(startTime);
      cursor := new int[4](_ => 0);
      var ring0 := new seq<Task>[256](_ => []);
      var ring1 := new seq<Task>[64](_ => []);
      var ring2 := new seq<Task>[64](_ => []);
      var ring3 := new seq<Task>[64](_ => []);
      wheels := [ring0, ring1, ring2, ring3];
      overflow, overflowHeld, index, cancelled := [], false, map[], {};
      agenda := Initial(startTime);
      new;
      StartsValid(startTime);
    }

    lemma StartsValid(startTime: int)
      requires Rings() && (forall l :: 0 <= l < 4 ==> cursor[l] == 0)
      requires forall l, i :: 0 <= l < 4 && 0 <= i < SlotCount(l) ==> wheels[l][i] == []
      requires overflow == [] && !overflowHeld && index == map[] && cancelled == {}
      requires now == Truncate(startTime) && agenda == Initial(startTime)
      ensures Valid()
    {
      EmptyCouples(V(), agenda);
      InitialConserved(startTime);
    }

    // ---------- Slot lists ----------

    method AddTo(level: nat, slot: nat, t: Task) returns (ok: bool)
      requires Rings() && level < 4 && slot < SlotCount(level)
      modifies wheels[level]
      ensures ok <==> |old(V()).slots[level][slot]| < MAX_SLOT_LEN
      ensures V() == if ok then Added(old(V()), t, level, slot) else old(V())
    {
      assert V().slots[level][slot] == wheels[level][slot];
      if |wheels[level][slot]| >= MAX_SLOT_LEN {
        return false;
      }
      wheels[level][slot] := wheels[level][slot] + [t];
      assert V().slots == Added(old(V()), t, level, slot).slots;
      return true;
    }

    method DrainSlot(level: nat, slot: nat) returns (tasks: seq<Task>)
      requires Rings() && level < 4 && slot < SlotCount(level)
      modifies wheels[level]
      ensures tasks == old(V()).slots[level][slot]
      ensures V() == Drained(old(V()), level, slot)
    {
      assert V().slots[level][slot] == wheels[level][slot];
      tasks := wheels[level][slot];
      wheels[level][slot] := [];
      assert V().slots == Drained(old(V()), level, slot).slots;
    }

    // ---------- Placement ----------

    method AddToLevel(level: nat, t: Task, ghost adv: nat, ghost hand: set<Task>) returns (ghost full: bool)
      requires Ready(adv, hand)
      requires Absent(V(), t) && t in agenda.fires && t !in agenda.plan && t !in hand
      requires 0 < t.fireAt - now < MAX_WHEEL_SPAN && level == LevelOf(t.fireAt - now)
      modifies this`agenda, wheels[level]
      ensures Ready(adv, hand)
      ensures agenda == if t in cancelled then old(agenda) else PlaceIn(old(agenda), t, adv, full)
      ensures full ==> |agenda.fires.Keys| >= MAX_SLOT_LEN
    {
      var ticks := (t.fireAt - now) / LevelTick(level) + 1;
      var slot := (cursor[level] + ticks) % SlotCount(level);
      ghost var due := DueOn(level, t.fireAt - now, agenda.ticks, adv);
      SlotOfDue(level, t.fireAt - now, agenda.ticks, adv);
      full := AddDue(level, due, slot, t, adv, hand);
    }

    method AddDue(level: nat, ghost due: nat, slot: nat, t: Task, ghost adv: nat, ghost hand: set<Task>)
      returns (ghost full: bool)
      requires Ready(adv, hand) && level < 4 && slot == SlotOf(level, due)
      requires Absent(V(), t) && t in agenda.fires && t !in agenda.plan && t !in hand
      modifies this`agenda, wheels[level]
      ensures Ready(adv, hand)
      ensures agenda == if t in cancelled then old(agenda)
                        else if full then old(agenda).(lost := old(agenda).lost + {t})
                        else old(agenda).(plan := old(agenda).plan[t := Slot(level, due)])
      ensures full ==> |agenda.fires.Keys| >= MAX_SLOT_LEN
    {
      SlotWithinInserted(V(), agenda, hand, level, slot);
      var ok := AddTo(level, slot, t);
      full := !ok;
      ghost var next :=
        if t in cancelled then agenda
        else if full then agenda.(lost := agenda.lost + {t})
        else agenda.(plan := agenda.plan[t := Slot(level, due)]);
      if ok {
        AddCouples(old(V()), agenda, next, hand, t, level, due);
      } else {
        ShrinkCouples(V(), agenda, hand, next, hand);
      }
      agenda := next;
    }

    static lemma SlotOfDue(level: nat, delay: int, n: nat, adv: nat)
      requires 0 < delay < MAX_WHEEL_SPAN && level == LevelOf(delay) && (n > 0 || adv >= 4)
      ensures SlotOf(level, DueOn(level, delay, n, adv))
           == (Base(level, n, adv) % SlotCount(level) + (delay / LevelTick(level) + 1)) % SlotCount(level)
    {
      var base, turns := Base(level, n, adv), delay / LevelTick(level) + 1;
      assert ((base + turns) * Width(level)) / Width(level) == base + turns;
      TurnsFrom(base, turns, level);
    }

    static lemma TurnsFrom(base: nat, turns: nat, level: nat)
      requires level < 4
      ensures (base + turns) % SlotCount(level) == (base % SlotCount(level) + turns) % SlotCount(level)
    {
    }

    method Place(t: Task, ghost adv: nat, ghost hand: set<Task>) returns (stuck: bool, ghost full: bool)
      requires Ready(adv, hand)
      requires Absent(V(), t) && t in agenda.fires && t !in agenda.plan && t !in hand
      modifies this, wheels
      ensures var o := PlaceOutcome(t, now, old(agenda).ticks, adv);
              && (stuck <==> overflowHeld && o == Put(Overflow))
              && (full ==> o.Put? && o.spot.Slot? && |agenda.fires.Keys| >= MAX_SLOT_LEN)
              && (o != Put(Overflow) ==> overflow == old(overflow))
      ensures !stuck ==> Ready(adv, hand)
      ensures !stuck ==> agenda == if t in cancelled then old(agenda) else PlaceIn(old(agenda), t, adv, full)
      ensures overflowHeld == old(overflowHeld) && cancelled == old(cancelled) && now == old(now)
    {
      var delay := t.fireAt - now;
      stuck, full := false, false;
      if delay <= 0 {
        FireHere(t, adv, hand);
      } else if delay < LevelTick(1) {
        full := AddToLevel(0, t, adv, hand);
      } else if delay < LevelTick(2) {
        full := AddToLevel(1, t, adv, hand);
      } else if delay < LevelTick(3) {
        full := AddToLevel(2, t, adv, hand);
      } else if delay < MAX_WHEEL_SPAN {
        full := AddToLevel(3, t, adv, hand);
      } else if overflowHeld {
        stuck := true;  // overflowMu.Lock() by the goroutine that holds it
      } else {
        PushFar(t, adv, hand);
      }
    }

    // Due already: the index forgets it, and it starts.
    method FireHere(t: Task, ghost adv: nat, ghost hand: set<Task>)
      requires Ready(adv, hand)
      requires t in agenda.fires && t !in agenda.plan && t !in hand && t.fireAt <= now
      modifies this`index, this`agenda
      ensures Ready(adv, hand)
      ensures agenda == if t in cancelled then old(agenda) else PlaceIn(old(agenda), t, adv, false)
    {
      if t !in cancelled {
        index := index - {t.id};
        ghost var next := PlaceIn(agenda, t, adv, false);
        ShrinkCouples(V(), agenda, hand, next, hand);
        agenda := next;
      }
    }

    // Beyond the wheel's span.
    method PushFar(t: Task, ghost adv: nat, ghost hand: set<Task>)
      requires Ready(adv, hand) && Absent(V(), t)
      requires t in agenda.fires && t !in agenda.plan && t !in hand && t.fireAt >= now + MAX_WHEEL_SPAN
      modifies this`overflow, this`agenda
      ensures Ready(adv, hand)
      ensures agenda == if t in cancelled then old(agenda) else PlaceIn(old(agenda), t, adv, false)
    {
      overflow := Push(overflow, Keyed(t.fireAt, t));
      ghost var next := if t in cancelled then agenda else PlaceIn(agenda, t, adv, false);
      PushCouples(old(V()), agenda, next, hand, t);
      agenda := next;
    }

    // The index takes the new task, and a task of the same ID is cancelled.
    method Register(t: Task)
      requires Valid() && t !in agenda.fires
      modifies this`index, this`cancelled, this`agenda
      ensures Ready(4, {}) && agenda == Registered(old(agenda), t)
      ensures Absent(V(), t) && t !in agenda.plan
    {
      RegisterCouples(V(), agenda, t);
      if t.id in index {
        cancelled := cancelled + {index[t.id]};
      }
      index := index[t.id := t];
      agenda := Registered(agenda, t);
    }

    method Insert(t: Task) returns (ghost full: bool)
      requires Valid() && t !in agenda.fires
      modifies this, wheels
      ensures Valid() && agenda == WheelPlan.Insert(old(agenda), t, full)
      ensures full ==> |agenda.fires.Keys| >= MAX_SLOT_LEN
    {
      Register(t);
      var stuck;
      stuck, full := Place(t, 4, {});
      InsertConserves(old(agenda), t, full);
    }

    method DoCancel(id: string)
      requires Valid()
      modifies this
      ensures Valid() && agenda == Cancel(old(agenda), id)
    {
      DropConserves(agenda, Task(0, "", 0), id);
      if id in index {
        cancelled := cancelled + {index[id]};
        index := index - {id};
        ShrinkCouples(V(), agenda, {}, Cancel(agenda, id), {});
        agenda := Cancel(agenda, id);
      }
    }

    /** Task.Cancel, called on the handle by anyone. */
    method CancelTask(t: Task)
      requires Valid()
      modifies this
      ensures Valid() && agenda == CancelHandle(old(agenda), t)
    {
      DropConserves(agenda, t, "");
      cancelled := cancelled + {t};
      ShrinkCouples(V(), agenda, {}, CancelHandle(agenda, t), {});
      agenda := CancelHandle(agenda, t);
    }

    // ---------- Ticks ----------

    /** Drains the slot under a level's cursor: the live tasks due at this tick, each once, and cancelled ones. */
    method TakeDue(level: nat) returns (tasks: seq<Task>)
      requires level < 4 && agenda.ticks > 0 && agenda.ticks % Width(level) == 0
      requires Ready(level + 1, {}) && ConservedMid(agenda, level)
      modifies this`agenda, wheels[level]
      ensures Ready(level + 1, {}) && agenda == Settle(old(agenda), level + 1, {}, {})
      ensures TakenBy(old(agenda), level + 1, tasks)
    {
      tasks := DrainSlot(level, cursor[level]);
      DrainFacts(old(V()), agenda, level);
      agenda := Settle(agenda, level + 1, {}, {});
    }

    // One turn of fireTasks' loop; `done` are the drained tasks dealt with before.
    method FireOne(t: Task, ghost a: Agenda, ghost done: set<Task>)
      requires a.ticks > 0 && ConservedMid(a, 0) && Firing(a, done)
      requires t !in done && (t in a.cancelled || Selected(a, t, 1))
      modifies this`index, this`agenda
      ensures Firing(a, done + {t})
    {
      assert t in a.plan ==> LiveTask(a, t, 0);
      if t in cancelled {
        SettleIdle(a, 1, done, {}, t);
      } else {
        SettleOneFires(a, 1, done, {}, t, 0);
        index := index - {t.id};
        ghost var next := Settle(a, 1, done + {t}, {});
        ShrinkCouples(V(), agenda, {}, next, {});
        agenda := next;
      }
    }

    ghost predicate Firing(a: Agenda, done: set<Task>)
      requires a.ticks > 0
      reads this, cursor, wheels
    {
      Ready(1, {}) && agenda == Settle(a, 1, done, {})
    }

    /** fireTasks on the slot under the level-0 cursor. */
    method FireTasks()
      requires Ready(1, {}) && agenda.ticks > 0 && ConservedMid(agenda, 0)
      modifies this`index, this`agenda, wheels[0]
      ensures Ready(1, {}) && agenda == Stage(old(agenda), 1, {})
    {
      ghost var a := agenda;
      var tasks := TakeDue(0);
      assert Before(tasks, 0) == {};
      for i := 0 to |tasks|
        invariant Firing(a, Before(tasks, i))
      {
        BeforeNext(tasks, i);
        FireOne(tasks[i], a, Before(tasks, i));
      }
      SettledWhole(a, 1, tasks, {});
    }

    // A cascade in progress: `done` are the drained tasks dealt with, `refused` those that found a full slot.
    ghost predicate Placing(level: nat, a: Agenda, done: set<Task>, refused: set<Task>)
      requires level < 4 && a.ticks > 0
      reads this, cursor, wheels
    {
      && Ready(level + 1, {}) && !overflowHeld
      && agenda == Settle(a, level + 1, done, refused) && refused <= done
      && (refused != {} ==> |a.fires.Keys| >= MAX_SLOT_LEN)
    }

    // One turn of cascade's loop.
    method CascadeOne(level: nat, t: Task, ghost a: Agenda, ghost done: set<Task>, ghost refused: set<Task>)
      returns (ghost full: bool)
      requires 1 <= level < 4 && a.ticks > 0 && ConservedMid(a, level) && Placing(level, a, done, refused)
      requires t !in done && (t in a.cancelled || Selected(a, t, level + 1))
      modifies this, wheels
      ensures Placing(level, a, done + {t}, if full then refused + {t} else refused)
    {
      assert t in a.plan ==> LiveTask(a, t, level);
      if t in cancelled {
        SettleIdle(a, level + 1, done, refused, t);
        full := false;
      } else {
        InHandAbsent(V(), a, level, done, refused, t);
        SettleKeepsFires(a, level + 1, done, refused);
        var stuck;
        stuck, full := Place(t, level + 1, {});
        SettleOne(a, level + 1, done, refused, t, full, level);
      }
    }

    /** cascade: drains the slot under the level's cursor and places its live tasks again. */
    method Cascade(level: nat) returns (ghost refused: set<Task>)
      requires 1 <= level < 4 && agenda.ticks > 0 && agenda.ticks % Width(level) == 0
      requires Ready(level + 1, {}) && ConservedMid(agenda, level) && !overflowHeld
      modifies this, wheels
      ensures Ready(level + 1, {}) && agenda == Stage(old(agenda), level + 1, refused)
      ensures refused != {} ==> |old(agenda).fires.Keys| >= MAX_SLOT_LEN
      ensures !overflowHeld
    {
      ghost var a := agenda;
      var tasks := TakeDue(level);
      refused := PlaceAll(level, tasks, a);
      SettledWhole(a, level + 1, tasks, refused);
    }

    method PlaceAll(level: nat, tasks: seq<Task>, ghost a: Agenda) returns (ghost refused: set<Task>)
      requires 1 <= level < 4 && a.ticks > 0 && ConservedMid(a, level) && TakenBy(a, level + 1, tasks)
      requires Placing(level, a, {}, {})
      modifies this, wheels
      ensures Placing(level, a, Before(tasks, |tasks|), refused)
    {
      refused := {};
      assert Before(tasks, 0) == {};
      for i := 0 to |tasks|
        invariant Placing(level, a, Before(tasks, i), refused)
      {
        BeforeNext(tasks, i);
        ghost var full := CascadeOne(level, tasks[i], a, Before(tasks, i), refused);
        refused := if full then refused + {tasks[i]} else refused;
      }
    }

    method PopTop(ghost a: Agenda, ghost done: set<Task>, ghost refused: set<Task>) returns (t: Task)
      requires Ready(0, InHand(a, done)) && a.ticks > 0 && ConservedMid(a, 0) && now == a.now
      requires Cascading(V(), a, done, refused) && agenda == Settle(a, 0, done, refused)
      requires overflow != [] && overflow[0].key <= now + MAX_WHEEL_SPAN
      modifies this`overflow
      ensures t == old(overflow)[0].val && |overflow| < |old(overflow)|
      ensures Ready(0, InHand(a, done + {t}))
      ensures t in agenda.fires && t !in agenda.plan
      ensures if t in cancelled then !Selected(a, t, 0) else Selected(a, t, 0) && t !in done && Absent(V(), t)
      ensures forall u :: u in InHand(a, done + {t}) ==> Keyed(u.fireAt, u) in overflow
    {
      t := overflow[0].val;
      PopInHand(V(), a, done, refused);
      PopCascading(V(), a, done, refused);
      PopShrinks(overflow);
      overflow := PopRest(overflow);
    }

    // The popped task, if live, is placed again.
    method PlaceTop(top: Task, ghost a: Agenda, ghost done: set<Task>, ghost refused: set<Task>)
      returns (stuck: bool, ghost full: bool)
      requires a.ticks > 0 && ConservedMid(a, 0) && overflowHeld && now == a.now && refused <= done
      requires Ready(0, InHand(a, done + {top})) && agenda == Settle(a, 0, done, refused)
      requires top in agenda.fires && top !in agenda.plan
      requires if top in cancelled then !Selected(a, top, 0)
               else Selected(a, top, 0) && top !in done && Absent(V(), top)
      modifies this, wheels
      ensures stuck ==> Selected(a, top, 0) && top.fireAt == a.now + MAX_WHEEL_SPAN
      ensures !stuck ==> Selected(a, top, 0) ==> top.fireAt != a.now + MAX_WHEEL_SPAN
      ensures !stuck ==> Ready(0, InHand(a, done + {top})) && overflowHeld && now == a.now && overflow == old(overflow)
      ensures !stuck ==> agenda == Settle(a, 0, done + {top}, if full then refused + {top} else refused)
      ensures full ==> |a.fires.Keys| >= MAX_SLOT_LEN
    {
      stuck, full := false, false;
      if top in cancelled {
        SettleIdle(a, 0, done, refused, top);
      } else {
        SettleKeepsFires(a, 0, done, refused);
        stuck, full := Place(top, 0, InHand(a, done + {top}));
        SettleOne(a, 0, done, refused, top, full, 0);
      }
    }

    // The overflow cascade in progress: `done` are the tasks popped and dealt with.
    ghost predicate Popping(a: Agenda, done: set<Task>, refused: set<Task>)
      requires a.ticks > 0
      reads this, cursor, wheels
    {
      && Ready(0, InHand(a, done)) && overflowHeld && now == a.now
      && Cascading(V(), a, done, refused) && agenda == Settle(a, 0, done, refused)
      && (refused != {} ==> |a.fires.Keys| >= MAX_SLOT_LEN)
    }

    // One pop of the overflow cascade.
    method PopOne(ghost a: Agenda, ghost done: set<Task>, ghost refused: set<Task>)
      returns (stuck: bool, ghost full: bool)
      requires a.ticks > 0 && ConservedMid(a, 0) && Popping(a, done, refused)
      requires overflow != [] && overflow[0].key <= now + MAX_WHEEL_SPAN
      modifies this, wheels
      ensures stuck ==> StuckNow(a)
      ensures !stuck ==>
        var t := old(overflow)[0].val;
        Popping(a, done + {t}, if full then refused + {t} else refused) && |overflow| < |old(overflow)|
      ensures full ==> |a.fires.Keys| >= MAX_SLOT_LEN
    {
      var top := PopTop(a, done, refused);
      stuck, full := PlaceTop(top, a, done, refused);
      if !stuck {
        CascadingAgain(V(), a, done, refused, top, if full then refused + {top} else refused);
      }
    }

    // The loop of cascadeOverflow.
    method PopAll(ghost a: Agenda) returns (stuck: bool, ghost done: set<Task>, ghost refused: set<Task>)
      requires a.ticks > 0 && ConservedMid(a, 0) && Popping(a, {}, {})
      modifies this, wheels
      ensures stuck ==> StuckNow(a)
      ensures !stuck ==>
        Popping(a, done, refused) && (overflow != [] ==> overflow[0].key > now + MAX_WHEEL_SPAN)
      ensures refused != {} ==> |a.fires.Keys| >= MAX_SLOT_LEN
    {
      stuck, done, refused := false, {}, {};
      var horizon := now + MAX_WHEEL_SPAN;
      while overflow != [] && overflow[0].key <= horizon
        invariant Popping(a, done, refused)
        invariant horizon == now + MAX_WHEEL_SPAN
        decreases |overflow|
      {
        ghost var t := overflow[0].val;
        ghost var full;
        stuck, full := PopOne(a, done, refused);
        refused := if full then refused + {t} else refused;
        done := done + {t};
        if stuck {
          return;
        }
      }
    }

    // With nothing popped yet.
    method HoldOverflow()
      requires Ready(0, {}) && agenda.ticks > 0 && !overflowHeld
      modifies this`overflowHeld, this`agenda
      ensures Popping(old(agenda), {}, {})
    {
      overflowHeld := true;
      CascadeBegins(V(), agenda);
      agenda := Settle(agenda, 0, {}, {});
    }

    // With only tasks beyond the horizon left.
    method ReleaseOverflow(ghost a: Agenda, ghost done: set<Task>, ghost refused: set<Task>)
      requires a.ticks > 0 && Popping(a, done, refused) && (overflow != [] ==> overflow[0].key > now + MAX_WHEEL_SPAN)
      modifies this`overflowHeld
      ensures Ready(0, {}) && agenda == Stage(a, 0, refused) && !overflowHeld && !StuckNow(a)
      ensures forall e :: e in overflow ==> e.key > now + MAX_WHEEL_SPAN
    {
      CascadeEnds(V(), a, done, refused);
      if overflow != [] {
        PopHeap(overflow);
      }
      overflowHeld := false;
    }

    /** cascadeOverflow: it ends with only tasks beyond the horizon left in the heap, unless a live task is due
        exactly at the horizon; then `place` waits for the mutex that cascadeOverflow holds. */
    method CascadeOverflow() returns (stuck: bool, ghost refused: set<Task>)
      requires Ready(0, {}) && agenda.ticks > 0 && ConservedMid(agenda, 0) && !overflowHeld
      modifies this, wheels
      ensures stuck <==> StuckNow(old(agenda))
      ensures !stuck ==> Ready(0, {}) && agenda == Stage(old(agenda), 0, refused) && !overflowHeld
      ensures !stuck ==> forall e :: e in overflow ==> e.key > now + MAX_WHEEL_SPAN
      ensures refused != {} ==> |old(agenda).fires.Keys| >= MAX_SLOT_LEN
    {
      ghost var a := agenda;
      HoldOverflow();
      ghost var done;
      stuck, done, refused := PopAll(a);
      if !stuck {
        ReleaseOverflow(a, done, refused);
      }
    }

    method Advance(level: nat)
      requires level < 4 && Ready(level, {}) && agenda.ticks > 0 && agenda.ticks % Width(level) == 0
      modifies cursor
      ensures Ready(level + 1, {})
      ensures cursor[level] == SlotOf(level, agenda.ticks)
    {
      AdvancedDigit(agenda.ticks, level);
      cursor[level] := (cursor[level] + 1) % SlotCount(level);
      CursorCouples(old(V()), V(), agenda, {});
    }

    method RollLevel(level: nat) returns (ghost refused: set<Task>)
      requires 1 <= level < 4 && agenda.ticks > 0 && agenda.ticks % Width(level) == 0
      requires Ready(level, {}) && ConservedMid(agenda, level) && !overflowHeld
      modifies this, cursor, wheels
      ensures Ready(level + 1, {}) && agenda == Stage(old(agenda), level + 1, refused)
      ensures refused != {} ==> |old(agenda).fires.Keys| >= MAX_SLOT_LEN
      ensures !overflowHeld && cursor[level] == SlotOf(level, agenda.ticks) && ConservedMid(agenda, level + 1)
    {
      Advance(level);
      refused := Cascade(level);
      StageConserves(old(agenda), level + 1, refused);
    }

    // The cascade of one level that rolls over, as the next stage of the tick that began at `c`.
    method RollOver(level: nat, ghost c: Agenda, ghost before: seq<set<Task>>) returns (ghost refused: seq<set<Task>>)
      requires 1 <= level < 4 && c.ticks > 0 && level < Rollover(c.ticks) && |before| == level + 1
      requires Ready(level, {}) && !overflowHeld && agenda == Stages(c, level + 1, before)
      requires AllowedBy(c, before) && ConservedMid(agenda, level)
      modifies this, cursor, wheels
      ensures Ready(level + 1, {}) && !overflowHeld && ConservedMid(agenda, level + 1)
      ensures |refused| == level + 2 && agenda == Stages(c, level + 2, refused) && AllowedBy(c, refused)
      ensures cursor[level] == SlotOf(level, c.ticks)
    {
      RolloverWidths(c.ticks, level);
      StagesKeepFires(c, level + 1, before);
      ghost var r := RollLevel(level);
      NextStage(c, before, r);
      refused := before + [r];
    }

    /** The nested rollovers of a tick: a level's cursor moves when the cursor below it has come back to 0. */
    method RollOvers(level: nat, ghost c: Agenda, ghost before: seq<set<Task>>) returns (ghost refused: seq<set<Task>>)
      requires 1 <= level <= 4 && c.ticks > 0 && level <= Rollover(c.ticks) && |before| == level + 1
      requires Ready(level, {}) && !overflowHeld && agenda == Stages(c, level + 1, before)
      requires AllowedBy(c, before) && ConservedMid(agenda, level) && cursor[level - 1] == SlotOf(level - 1, c.ticks)
      modifies this, cursor, wheels
      ensures |refused| == 1 + Rollover(c.ticks) && agenda == Stages(c, |refused|, refused)
      ensures Ready(Rollover(c.ticks), {}) && !overflowHeld && AllowedBy(c, refused)
      decreases 4 - level
    {
      RolloverWidths(c.ticks, level - 1);
      if level < 4 {
        RolloverWidths(c.ticks, level);
        Carry(c.ticks, level - 1);
      }
      if level < 4 && cursor[level - 1] == 0 {
        refused := RollOver(level, c, before);
        refused := RollOvers(level + 1, c, refused);
      } else {
        refused := before;
      }
    }

    // The clock and the overflow cascade.
    method BeginTick(wall: int) returns (stuck: bool, ghost refused: seq<set<Task>>)
      requires Valid()
      modifies this, wheels
      ensures stuck <==> Stuck(old(agenda), wall)
      ensures !stuck ==>
        var c := Clocked(old(agenda), wall);
        && Ready(0, {}) && !overflowHeld && AllowedBy(c, refused)
        && |refused| == 1 && agenda == Stages(c, 1, refused)
    {
      now := Truncate(wall);
      ghost var c := Clocked(agenda, wall);
      TickBegins(V(), agenda, wall);
      agenda := c;
      ghost var r;
      stuck, r := CascadeOverflow();
      refused := [r];
      StuckAtTick(old(agenda), wall);
      FirstStage(c, r);
    }

    // Level 0.
    method FireStage(ghost c: Agenda, ghost before: seq<set<Task>>) returns (ghost refused: seq<set<Task>>)
      requires Ready(0, {}) && !overflowHeld && c.ticks > 0 && ConservedMid(agenda, 0) && AllowedBy(c, before)
      requires |before| == 1 && agenda == Stages(c, 1, before)
      modifies this`index, this`agenda, cursor, wheels[0]
      ensures Ready(1, {}) && !overflowHeld && AllowedBy(c, refused)
      ensures |refused| == 2 && agenda == Stages(c, 2, refused) && cursor[0] == SlotOf(0, c.ticks)
    {
      Advance(0);
      FireTasks();
      NextStage(c, before, {});
      refused := before + [{}];
    }

    // Every level in turn, once the overflow has cascaded.
    method RunStages(ghost was: Agenda, ghost wall: int, ghost before: seq<set<Task>>)
      returns (ghost refused: seq<set<Task>>)
      requires Conserved(was) && Ready(0, {}) && !overflowHeld && AllowedBy(Clocked(was, wall), before)
      requires |before| == 1 && agenda == Stages(Clocked(was, wall), 1, before)
      modifies this, cursor, wheels
      ensures var c := Clocked(was, wall);
              && Ready(Rollover(c.ticks), {}) && !overflowHeld && AllowedBy(c, refused)
              && |refused| == 1 + Rollover(c.ticks) && agenda == Stages(c, |refused|, refused)
    {
      ghost var c := Clocked(was, wall);
      ClockConserves(was, wall);
      StagesConserve(c, 1, before);
      refused := FireStage(c, before);
      StagesConserve(c, 2, refused);
      refused := RollOvers(1, c, refused);
    }

    /** One tick of the wheel. */
    method Tick(wall: int) returns (stuck: bool, ghost refused: seq<set<Task>>)
      requires Valid()
      modifies this, cursor, wheels
      ensures stuck <==> Stuck(old(agenda), wall)
      ensures !stuck ==> Valid() && agenda == WheelPlan.Tick(old(agenda), wall, refused)
      ensures !stuck ==> WholeMillis(now) && now <= wall < now + MS
      ensures !stuck ==> AllowedBy(old(agenda), refused)
    {
      stuck, refused := BeginTick(wall);
      if !stuck {
        ghost var c := Clocked(old(agenda), wall);
        refused := RunStages(old(agenda), wall, refused);
        RestOfCursors(V(), c.ticks, Rollover(c.ticks));
        TickConserves(old(agenda), wall, refused);
      }
    }
  }
}
