/** How the wheel's cursors, slot lists and overflow heap hold the plan. */
module WheelCoupling {
  import opened WheelPlan
  import opened WheelRuns
  import opened ContainerHeap

  datatype View = View(cursor: seq<int>, slots: seq<seq<seq<Task>>>, overflow: seq<Keyed<Task>>)

  ghost predicate Shape(v: View) {
    && |v.cursor| == 4 && |v.slots| == 4
    && (forall l :: 0 <= l < 4 ==> |v.slots[l]| == SlotCount(l))
  }

  // Every cursor is a digit of the odometer.
  ghost predicate CursorsAt(v: View, n: nat, adv: nat)
    requires Shape(v) && (n > 0 || adv >= 4)
  {
    forall l :: 0 <= l < 4 ==> v.cursor[l] == Base(l, n, adv) % SlotCount(l)
  }

  function SlotOf(level: nat, due: nat): nat
    requires level < 4
  {
    (due / Width(level)) % SlotCount(level)
  }

  ghost predicate NoDup<T>(s: seq<T>) {
    forall i, j :: 0 <= i < j < |s| ==> s[i] != s[j]
  }

  ghost predicate InSlot(v: View, t: Task, level: nat, slot: nat)
    requires Shape(v)
  {
    level < 4 && slot < SlotCount(level) && t in v.slots[level][slot]
  }

  ghost predicate Held(v: View, t: Task, spot: Spot)
    requires Shape(v)
  {
    match spot
    case Slot(level, due) => level < 4 && InSlot(v, t, level, SlotOf(level, due))
    case Overflow => Keyed(t.fireAt, t) in v.overflow
  }

  // What lies in a slot is a live task whose due tick belongs to that slot, or a cancelled task not yet swept out.
  ghost predicate SlotEntry(v: View, a: Agenda, t: Task, level: nat, slot: nat)
    requires Shape(v)
  {
    InSlot(v, t, level, slot) ==>
      && t in a.fires
      && (t in a.cancelled
          || (t in a.plan && a.plan[t].Slot? && a.plan[t].level == level && SlotOf(level, a.plan[t].due) == slot))
  }

  ghost predicate HeapEntry(v: View, a: Agenda, hand: set<Task>, e: Keyed<Task>) {
    e in v.overflow ==>
      && e.key == e.val.fireAt
      && e.val in a.fires
      && (e.val in a.cancelled || e.val in hand || (e.val in a.plan && a.plan[e.val] == Overflow))
  }

  ghost predicate Tidy(v: View)
    requires Shape(v)
  {
    && (forall l, s :: 0 <= l < 4 && 0 <= s < SlotCount(l) ==> NoDup(v.slots[l][s]))
    && (forall e :: e in v.overflow ==> multiset(v.overflow)[e] == 1)
    && IsHeap(v.overflow)
  }

  /** The wheel holds exactly the plan, each live task in the one place its spot names.  `hand` are the tasks
      the overflow cascade has taken out of the plan and not yet popped. */
  ghost predicate Coupled(v: View, a: Agenda, hand: set<Task>) {
    && Shape(v)
    && (forall t :: t in a.plan ==> Held(v, t, a.plan[t]))
    && (forall t, l, s :: SlotEntry(v, a, t, l, s))
    && (forall e :: HeapEntry(v, a, hand, e))
    && Tidy(v)
  }

  ghost predicate Absent(v: View, t: Task)
    requires Shape(v)
  {
    (forall l, s :: !InSlot(v, t, l, s)) && (forall e :: e in v.overflow ==> e.val != t)
  }

  // A task that is neither live nor cancelled lies in no slot.
  lemma NotInSlots(v: View, a: Agenda, hand: set<Task>, t: Task)
    requires Coupled(v, a, hand) && t !in a.plan && t !in a.cancelled
    ensures forall l, s :: !InSlot(v, t, l, s)
  {
    forall l, s ensures !InSlot(v, t, l, s) {
      assert SlotEntry(v, a, t, l, s);
    }
  }

  lemma NewTaskAbsent(v: View, a: Agenda, hand: set<Task>, t: Task)
    requires Coupled(v, a, hand) && t !in a.fires
    ensures Absent(v, t)
  {
    forall l, s ensures !InSlot(v, t, l, s) {
      assert SlotEntry(v, a, t, l, s);
    }
    forall e | e in v.overflow ensures e.val != t {
      assert HeapEntry(v, a, hand, e);
    }
  }

  // ---------- Putting a task somewhere ----------

  function Added(v: View, t: Task, level: nat, slot: nat): View
    requires Shape(v) && level < 4 && slot < SlotCount(level)
  {
    v.(slots := v.slots[level := v.slots[level][slot := v.slots[level][slot] + [t]]])
  }

  lemma AddedSlots(v: View, t: Task, level: nat, slot: nat, u: Task, l: nat, s: nat)
    requires Shape(v) && level < 4 && slot < SlotCount(level)
    ensures Shape(Added(v, t, level, slot))
    ensures InSlot(Added(v, t, level, slot), u, l, s) <==> InSlot(v, u, l, s) || (u == t && l == level && s == slot)
  {
  }

  // `a` is the agenda after the task has been planned there, or left as it was for a cancelled task.
  lemma AddCouples(v: View, a: Agenda, b: Agenda, hand: set<Task>, t: Task, level: nat, due: nat)
    requires Coupled(v, a, hand) && Absent(v, t) && t in a.fires && level < 4
    requires b == if t in a.cancelled then a else a.(plan := a.plan[t := Slot(level, due)])
    requires t !in a.plan && t !in hand
    ensures Coupled(Added(v, t, level, SlotOf(level, due)), b, hand)
  {
    var slot := SlotOf(level, due);
    var w := Added(v, t, level, slot);
    forall u ensures u in b.plan ==> Held(w, u, b.plan[u]) {
      if u in b.plan && b.plan[u].Slot? {
        assert u != t ==> Held(v, u, a.plan[u]);
        AddedSlots(v, t, level, slot, u, b.plan[u].level, SlotOf(b.plan[u].level, b.plan[u].due));
      } else if u in b.plan {
        assert Held(v, u, a.plan[u]);
      }
    }
    forall u, l, s ensures SlotEntry(w, b, u, l, s) {
      AddedSlots(v, t, level, slot, u, l, s);
      assert SlotEntry(v, a, u, l, s);
    }
    forall e ensures HeapEntry(w, b, hand, e) {
      assert HeapEntry(v, a, hand, e);
    }
    forall l, s | 0 <= l < 4 && 0 <= s < SlotCount(l) ensures NoDup(w.slots[l][s]) {
      assert NoDup(v.slots[l][s]);
      assert !InSlot(v, t, level, slot);
    }
  }

  lemma PushCouples(v: View, a: Agenda, b: Agenda, hand: set<Task>, t: Task)
    requires Coupled(v, a, hand) && Absent(v, t) && t in a.fires
    requires b == if t in a.cancelled then a else a.(plan := a.plan[t := Overflow])
    requires t !in a.plan && t !in hand
    ensures Coupled(v.(overflow := Push(v.overflow, Keyed(t.fireAt, t))), b, hand)
  {
    var x := Keyed(t.fireAt, t);
    var w := v.(overflow := Push(v.overflow, x));
    PushHeap(v.overflow, x);
    InMultiset(v.overflow);
    InMultiset(w.overflow);
    forall e ensures HeapEntry(w, b, hand, e) {
      assert HeapEntry(v, a, hand, e);
    }
    forall u | u in b.plan ensures Held(w, u, b.plan[u]) {
      if u != t {
        assert Held(v, u, a.plan[u]);
        if b.plan[u].Slot? {
          assert InSlot(w, u, b.plan[u].level, SlotOf(b.plan[u].level, b.plan[u].due));
        }
      }
    }
    forall u, l, s ensures SlotEntry(w, b, u, l, s) {
      assert SlotEntry(v, a, u, l, s) && (InSlot(w, u, l, s) <==> InSlot(v, u, l, s));
    }
  }

  lemma InMultiset<T>(s: seq<T>)
    ensures forall x :: x in s <==> multiset(s)[x] > 0
  {
  }

  // ---------- Changing the agenda only ----------

  // Live tasks leave the plan: they are cancelled, or the overflow cascade has them in hand.
  lemma ShrinkCouples(v: View, a: Agenda, hand: set<Task>, b: Agenda, hand': set<Task>)
    requires Coupled(v, a, hand)
    requires b.fires.Keys >= a.fires.Keys && b.cancelled >= a.cancelled && hand' >= hand
    requires forall t :: t in b.plan ==> t in a.plan && a.plan[t] == b.plan[t]
    requires forall t :: t in a.plan && t !in b.plan ==> t in b.cancelled || (t in hand' && a.plan[t] == Overflow)
    ensures Coupled(v, b, hand')
  {
    forall t, l, s ensures SlotEntry(v, b, t, l, s) {
      assert SlotEntry(v, a, t, l, s);
    }
    forall e ensures HeapEntry(v, b, hand', e) {
      assert HeapEntry(v, a, hand, e);
    }
  }

  lemma EmptyCouples(v: View, a: Agenda)
    requires Shape(v) && v.overflow == [] && a.plan == map[]
    requires forall s | s in v.slots[0] + v.slots[1] + v.slots[2] + v.slots[3] :: s == []
    ensures Coupled(v, a, {})
  {
    forall t, l: nat, s: nat ensures SlotEntry(v, a, t, l, s) {
      assert l < 4 && s < SlotCount(l) ==> v.slots[l][s] in v.slots[0] + v.slots[1] + v.slots[2] + v.slots[3];
    }
    forall l, s | 0 <= l < 4 && 0 <= s < SlotCount(l) ensures NoDup(v.slots[l][s]) {
      assert v.slots[l][s] in v.slots[0] + v.slots[1] + v.slots[2] + v.slots[3];
    }
  }

  lemma RegisterCouples(v: View, a: Agenda, t: Task)
    requires Coupled(v, a, {}) && Conserved(a) && t !in a.fires
    ensures Coupled(v, Registered(a, t), {}) && Absent(v, t) && t !in Registered(a, t).plan
  {
    NewTaskAbsent(v, a, {}, t);
    RegisterConserves(a, t);
    ShrinkCouples(v, a, {}, Registered(a, t), {});
  }

  // ---------- Taking a slot out ----------

  function Drained(v: View, level: nat, slot: nat): View
    requires Shape(v) && level < 4 && slot < SlotCount(level)
  {
    v.(slots := v.slots[level := v.slots[level][slot := []]])
  }

  /** The slot under the cursor holds the live tasks of that level due at this tick, no other live task, and
      each of them once. */
  lemma DrainTakesTheDue(v: View, a: Agenda, level: nat, t: Task)
    requires a.ticks > 0 && level < 4 && a.ticks % Width(level) == 0
    requires Coupled(v, a, {}) && ConservedMid(a, level)
    ensures SlotOf(level, a.ticks) < SlotCount(level)
    ensures Selected(a, t, level + 1) ==> InSlot(v, t, level, SlotOf(level, a.ticks))
    ensures InSlot(v, t, level, SlotOf(level, a.ticks)) ==> t in a.cancelled || Selected(a, t, level + 1)
  {
    var slot := SlotOf(level, a.ticks);
    assert SlotEntry(v, a, t, level, slot);
    if t in a.plan {
      assert LiveTask(a, t, level) && Held(v, t, a.plan[t]);
      if a.plan[t].Slot? && a.plan[t].level == level {
        DrainedWhenDue(a.plan[t], a.ticks, level);
      }
    }
  }

  lemma DrainCouples(v: View, a: Agenda, level: nat)
    requires a.ticks > 0 && level < 4 && a.ticks % Width(level) == 0
    requires Coupled(v, a, {}) && ConservedMid(a, level)
    ensures SlotOf(level, a.ticks) < SlotCount(level)
    ensures Coupled(Drained(v, level, SlotOf(level, a.ticks)), Settle(a, level + 1, {}, {}), {})
  {
    var slot := SlotOf(level, a.ticks);
    var w := Drained(v, level, slot);
    var b := Settle(a, level + 1, {}, {});
    forall t | t in b.plan ensures Held(w, t, b.plan[t]) {
      assert Held(v, t, a.plan[t]) && LiveTask(a, t, level);
      if a.plan[t].Slot? {
        var l, s := a.plan[t].level, SlotOf(a.plan[t].level, a.plan[t].due);
        if l == level {
          DrainedWhenDue(a.plan[t], a.ticks, level);
        }
        assert InSlot(v, t, l, s) && (l != level || s != slot);
        assert InSlot(w, t, l, s);
      }
    }
    forall t, l, s ensures SlotEntry(w, b, t, l, s) {
      assert SlotEntry(v, a, t, l, s);
      if InSlot(w, t, l, s) {
        assert InSlot(v, t, l, s) && (l != level || s != slot);
      }
    }
    forall e ensures HeapEntry(w, b, {}, e) {
      assert HeapEntry(v, a, {}, e);
    }
    forall l, s | 0 <= l < 4 && 0 <= s < SlotCount(l) ensures NoDup(w.slots[l][s]) {
      assert NoDup(v.slots[l][s]);
    }
  }

  lemma SettleKeepsFires(a: Agenda, stage: nat, done: set<Task>, refused: set<Task>)
    requires a.ticks > 0
    ensures Settle(a, stage, done, refused).fires.Keys == a.fires.Keys
  {
  }

  lemma DrainFacts(v: View, a: Agenda, level: nat)
    requires a.ticks > 0 && level < 4 && a.ticks % Width(level) == 0
    requires Coupled(v, a, {}) && ConservedMid(a, level)
    ensures var slot := SlotOf(level, a.ticks);
            && slot < SlotCount(level)
            && TakenBy(a, level + 1, v.slots[level][slot])
            && Coupled(Drained(v, level, slot), Settle(a, level + 1, {}, {}), {})
  {
    DrainCouples(v, a, level);
    var slot := SlotOf(level, a.ticks);
    forall t ensures Selected(a, t, level + 1) ==> t in v.slots[level][slot] {
      DrainTakesTheDue(v, a, level, t);
      assert InSlot(v, t, level, slot) <==> t in v.slots[level][slot];
    }
    forall i | 0 <= i < |v.slots[level][slot]|
      ensures v.slots[level][slot][i] in a.cancelled || Selected(a, v.slots[level][slot][i], level + 1)
    {
      DrainTakesTheDue(v, a, level, v.slots[level][slot][i]);
      assert InSlot(v, v.slots[level][slot][i], level, slot);
    }
  }

  // A drained live task that has not been dealt with lies nowhere.
  lemma InHandAbsent(v: View, a: Agenda, level: nat, done: set<Task>, refused: set<Task>, t: Task)
    requires a.ticks > 0 && level < 4 && ConservedMid(a, level)
    requires Coupled(v, Settle(a, level + 1, done, refused), {})
    requires Selected(a, t, level + 1) && t !in done
    ensures Absent(v, t) && t !in Settle(a, level + 1, done, refused).plan
    ensures t in Settle(a, level + 1, done, refused).fires
  {
    var b := Settle(a, level + 1, done, refused);
    assert LiveTask(a, t, level);
    NotInSlots(v, b, {}, t);
    forall e | e in v.overflow ensures e.val != t {
      assert HeapEntry(v, b, {}, e);
    }
  }

  // ---------- Popping the overflow heap ----------

  lemma PopDistinct<T>(h: seq<Keyed<T>>)
    requires IsHeap(h) && h != [] && forall e :: e in h ==> multiset(h)[e] == 1
    ensures IsHeap(PopRest(h))
    ensures forall e :: e in PopRest(h) ==> e in h && e != h[0] && multiset(PopRest(h))[e] == 1
    ensures forall e :: e in h && e != h[0] ==> e in PopRest(h)
  {
    PopHeap(h);
    InMultiset(h);
    InMultiset(PopRest(h));
    var m := multiset(PopRest(h));
    assert multiset(h)[h[0]] == 1 + m[h[0]];
    forall e | e in PopRest(h) ensures e in h && e != h[0] && m[e] == 1 {
      assert m[e] > 0 && multiset(h)[e] >= m[e];
    }
    forall e | e in h && e != h[0] ensures e in PopRest(h) {
      assert multiset(h)[e] == m[e];
    }
  }

  lemma PopCouples(v: View, a: Agenda, hand: set<Task>)
    requires Coupled(v, a, hand) && v.overflow != []
    requires v.overflow[0].val !in a.plan
    ensures Coupled(v.(overflow := PopRest(v.overflow)), a, hand - {v.overflow[0].val})
    ensures forall e :: e in PopRest(v.overflow) ==> e.val != v.overflow[0].val
    ensures forall e :: e in v.overflow && e != v.overflow[0] ==> e in PopRest(v.overflow)
  {
    var top := v.overflow[0];
    var w := v.(overflow := PopRest(v.overflow));
    PopDistinct(v.overflow);
    assert HeapEntry(v, a, hand, top);
    forall e | e in w.overflow ensures e.val != top.val {
      assert HeapEntry(v, a, hand, e);
    }
    forall e ensures HeapEntry(w, a, hand - {top.val}, e) {
      assert HeapEntry(v, a, hand, e);
    }
    forall t | t in a.plan ensures Held(w, t, a.plan[t]) {
      assert Held(v, t, a.plan[t]);
      if a.plan[t].Slot? {
        assert InSlot(w, t, a.plan[t].level, SlotOf(a.plan[t].level, a.plan[t].due));
      }
    }
    forall t, l, s ensures SlotEntry(w, a, t, l, s) {
      assert SlotEntry(v, a, t, l, s) && (InSlot(w, t, l, s) <==> InSlot(v, t, l, s));
    }
  }

  // The tasks within the horizon that the overflow cascade has still to pop.
  ghost function InHand(a: Agenda, done: set<Task>): set<Task> {
    set t | t in a.plan && Selected(a, t, 0) && t !in done
  }

  /** The overflow cascade between two pops. */
  ghost predicate Cascading(v: View, a: Agenda, done: set<Task>, refused: set<Task>)
    requires a.ticks > 0
  {
    && Coupled(v, Settle(a, 0, done, refused), InHand(a, done))
    && refused <= done
    && (forall t :: t in InHand(a, done) ==> Keyed(t.fireAt, t) in v.overflow)
    && (forall t :: t in done && Selected(a, t, 0) ==> t.fireAt != a.now + MAX_WHEEL_SPAN)
  }

  lemma CascadeBegins(v: View, a: Agenda)
    requires a.ticks > 0 && Coupled(v, a, {})
    ensures Cascading(v, a, {}, {})
  {
    ShrinkCouples(v, a, {}, Settle(a, 0, {}, {}), InHand(a, {}));
    forall t | t in InHand(a, {}) ensures Keyed(t.fireAt, t) in v.overflow {
      assert Held(v, t, a.plan[t]);
    }
  }

  // The root of the heap is beyond the horizon, so everything in it is, and nothing is in hand.
  lemma CascadeEnds(v: View, a: Agenda, done: set<Task>, refused: set<Task>)
    requires a.ticks > 0 && Cascading(v, a, done, refused)
    requires v.overflow != [] ==> v.overflow[0].key > a.now + MAX_WHEEL_SPAN
    ensures InHand(a, done) == {} && Settle(a, 0, done, refused) == Stage(a, 0, refused)
    ensures forall t :: t in a.plan && a.plan[t] == Overflow ==> t.fireAt != a.now + MAX_WHEEL_SPAN
  {
    forall t | t in a.plan ensures t !in InHand(a, done) {
      if v.overflow != [] {
        PopHeap(v.overflow);
      }
    }
    forall t ensures Selected(a, t, 0) ==> t in done {
      assert Selected(a, t, 0) && t !in done ==> t in InHand(a, done);
    }
    SettleAll(a, 0, done, refused);
  }

  // What is popped is either cancelled or one of the tasks in hand.
  lemma PopInHand(v: View, a: Agenda, done: set<Task>, refused: set<Task>)
    requires a.ticks > 0 && ConservedMid(a, 0) && Cascading(v, a, done, refused)
    requires v.overflow != [] && v.overflow[0].key <= a.now + MAX_WHEEL_SPAN
    ensures var t := v.overflow[0].val; var s := Settle(a, 0, done, refused);
            && t in s.fires && t !in s.plan
            && (t in a.cancelled ==> !Selected(a, t, 0))
            && (t !in a.cancelled ==> Selected(a, t, 0) && t !in done)
  {
    var t := v.overflow[0].val;
    assert HeapEntry(v, Settle(a, 0, done, refused), InHand(a, done), v.overflow[0]);
    assert t in a.plan ==> LiveTask(a, t, 0);
  }

  lemma PopCascading(v: View, a: Agenda, done: set<Task>, refused: set<Task>)
    requires a.ticks > 0 && ConservedMid(a, 0) && Cascading(v, a, done, refused)
    requires v.overflow != [] && v.overflow[0].key <= a.now + MAX_WHEEL_SPAN
    ensures var t := v.overflow[0].val; var w := v.(overflow := PopRest(v.overflow));
            && Coupled(w, Settle(a, 0, done, refused), InHand(a, done + {t}))
            && (forall u :: u in InHand(a, done + {t}) ==> Keyed(u.fireAt, u) in w.overflow)
            && (t !in a.cancelled ==> Absent(w, t))
  {
    var t := v.overflow[0].val;
    var s := Settle(a, 0, done, refused);
    PopInHand(v, a, done, refused);
    PopCouples(v, s, InHand(a, done));
    assert InHand(a, done) - {t} == InHand(a, done + {t});
    if t !in a.cancelled {
      NotInSlots(v.(overflow := PopRest(v.overflow)), s, InHand(a, done + {t}), t);
    }
    forall u | u in InHand(a, done + {t}) ensures Keyed(u.fireAt, u) in PopRest(v.overflow) {
      assert u in InHand(a, done);
    }
  }

  // The popped task has been dealt with.
  lemma CascadingAgain(v: View, a: Agenda, done: set<Task>, refused: set<Task>, t: Task, r: set<Task>)
    requires a.ticks > 0 && Coupled(v, Settle(a, 0, done + {t}, r), InHand(a, done + {t}))
    requires r <= done + {t}
    requires forall u :: u in done && Selected(a, u, 0) ==> u.fireAt != a.now + MAX_WHEEL_SPAN
    requires Selected(a, t, 0) ==> t.fireAt != a.now + MAX_WHEEL_SPAN
    requires forall u :: u in InHand(a, done + {t}) ==> Keyed(u.fireAt, u) in v.overflow
    ensures Cascading(v, a, done + {t}, r)
  {
  }

  // ---------- Settling one task at a time ----------

  lemma SettleOneFires(a: Agenda, stage: nat, done: set<Task>, refused: set<Task>, t: Task, adv: nat)
    requires a.ticks > 0 && ConservedMid(a, adv)
    requires Fired(a, t, stage) && t !in done
    ensures var s := Settle(a, stage, done, refused);
            t in s.fires && s.(index := s.index - {t.id}, fires := s.fires[t := s.fires[t] + [s.now]])
                         == Settle(a, stage, done + {t}, refused)
  {
    assert LiveTask(a, t, adv);
    var s := Settle(a, stage, done, refused);
    var c := Settle(a, stage, done + {t}, refused);
    assert s.plan == c.plan;
    FiresOutOfIndex(a, stage, done, refused, t, adv);
    assert s.lost == c.lost;
    assert s.fires[t := s.fires[t] + [s.now]] == c.fires;
  }

  lemma FiresOutOfIndex(a: Agenda, stage: nat, done: set<Task>, refused: set<Task>, t: Task, adv: nat)
    requires a.ticks > 0 && ConservedMid(a, adv)
    requires Fired(a, t, stage) && t !in done
    ensures Settle(a, stage, done, refused).index - {t.id} == Settle(a, stage, done + {t}, refused).index
  {
    assert LiveTask(a, t, adv);
    assert forall id :: id in a.index ==> IndexEntry(a, id);
  }

  lemma SettleOnePut(a: Agenda, stage: nat, done: set<Task>, refused: set<Task>, t: Task)
    requires a.ticks > 0
    requires Selected(a, t, stage) && StageOutcome(a, t, stage).Put? && t !in done && refused <= done
    ensures var s := Settle(a, stage, done, refused);
            s.(plan := s.plan[t := StageOutcome(a, t, stage).spot]) == Settle(a, stage, done + {t}, refused)
  {
    var s := Settle(a, stage, done, refused);
    var c := Settle(a, stage, done + {t}, refused);
    assert s.plan[t := StageOutcome(a, t, stage).spot] == c.plan;
    assert s.index == c.index;
    assert s.lost == c.lost;
    assert s.fires == c.fires;
  }

  lemma SettleOneFull(a: Agenda, stage: nat, done: set<Task>, refused: set<Task>, t: Task)
    requires a.ticks > 0
    requires Refused(a, t, stage, {t}) && t !in done && refused <= done
    ensures var s := Settle(a, stage, done, refused);
            s.(lost := s.lost + {t}) == Settle(a, stage, done + {t}, refused + {t})
  {
    var s := Settle(a, stage, done, refused);
    var c := Settle(a, stage, done + {t}, refused + {t});
    assert s.plan == c.plan;
    assert s.index == c.index;
    assert s.lost + {t} == c.lost;
    assert s.fires == c.fires;
  }

  lemma SettleOne(a: Agenda, stage: nat, done: set<Task>, refused: set<Task>, t: Task, full: bool, adv: nat)
    requires a.ticks > 0 && stage != 1 && ConservedMid(a, adv)
    requires Selected(a, t, stage) && t !in done && refused <= done
    requires full ==> Refused(a, t, stage, {t})
    ensures t in Settle(a, stage, done, refused).fires
    ensures PlaceIn(Settle(a, stage, done, refused), t, stage, full)
         == Settle(a, stage, done + {t}, if full then refused + {t} else refused)
  {
    assert LiveTask(a, t, adv);
    if StageOutcome(a, t, stage) == FireNow {
      SettleOneFires(a, stage, done, refused, t, adv);
    } else if full {
      SettleOneFull(a, stage, done, refused, t);
    } else {
      SettleOnePut(a, stage, done, refused, t);
    }
  }

  lemma SettleIdle(a: Agenda, stage: nat, done: set<Task>, refused: set<Task>, t: Task)
    requires a.ticks > 0 && !Selected(a, t, stage)
    ensures Settle(a, stage, done + {t}, refused) == Settle(a, stage, done, refused)
  {
    var b := Settle(a, stage, done + {t}, refused);
    var c := Settle(a, stage, done, refused);
    assert b.plan == c.plan && b.index == c.index && b.lost == c.lost && b.fires == c.fires;
  }

  lemma SettleAll(a: Agenda, stage: nat, done: set<Task>, refused: set<Task>)
    requires a.ticks > 0 && forall t :: Selected(a, t, stage) ==> t in done
    ensures Settle(a, stage, done, refused) == Stage(a, stage, refused)
  {
    var b := Settle(a, stage, done, refused);
    var c := Stage(a, stage, refused);
    assert b.plan == c.plan && b.index == c.index && b.lost == c.lost && b.fires == c.fires;
  }

  // ---------- Settling a drained list ----------

  /** `tasks` is the drained list of a stage: all the tasks the stage selects, each once, and cancelled ones. */
  ghost predicate TakenBy(a: Agenda, stage: nat, tasks: seq<Task>) {
    && NoDup(tasks)
    && (forall t :: Selected(a, t, stage) ==> t in tasks)
    && (forall i :: 0 <= i < |tasks| ==> tasks[i] in a.cancelled || Selected(a, tasks[i], stage))
  }

  ghost function Before(tasks: seq<Task>, i: nat): set<Task>
    requires i <= |tasks|
  {
    set t | t in tasks[..i]
  }

  lemma BeforeNext(tasks: seq<Task>, i: nat)
    requires i < |tasks| && NoDup(tasks)
    ensures tasks[i] !in Before(tasks, i) && Before(tasks, i + 1) == Before(tasks, i) + {tasks[i]}
  {
    assert tasks[..i + 1] == tasks[..i] + [tasks[i]];
  }

  lemma SettledWhole(a: Agenda, stage: nat, tasks: seq<Task>, refused: set<Task>)
    requires a.ticks > 0 && TakenBy(a, stage, tasks)
    ensures Settle(a, stage, Before(tasks, |tasks|), refused) == Stage(a, stage, refused)
  {
    assert tasks[..|tasks|] == tasks;
    SettleAll(a, stage, Before(tasks, |tasks|), refused);
  }

  // A full slot holds MAX_SLOT_LEN different tasks, all of them inserted before.
  lemma SlotWithinInserted(v: View, a: Agenda, hand: set<Task>, level: nat, slot: nat)
    requires Coupled(v, a, hand) && level < 4 && slot < SlotCount(level)
    ensures |v.slots[level][slot]| <= |a.fires.Keys|
  {
    var list := v.slots[level][slot];
    assert NoDup(list);
    forall t | t in list ensures t in a.fires.Keys {
      assert SlotEntry(v, a, t, level, slot) && InSlot(v, t, level, slot);
    }
    DistinctWithin(list, a.fires.Keys);
  }

  lemma {:induction false} DistinctWithin<T>(s: seq<T>, b: set<T>)
    requires NoDup(s) && forall x :: x in s ==> x in b
    ensures |s| <= |b|
    decreases |s|
  {
    if s != [] {
      DistinctWithin(s[1..], b - {s[0]});
    }
  }

  // ---------- The odometer of a tick ----------

  lemma {:induction false} StagesExtend(a: Agenda, count: nat, refused: seq<set<Task>>, r: set<Task>)
    requires a.ticks > 0 && count <= |refused|
    ensures Stages(a, count, refused + [r]) == Stages(a, count, refused)
  {
    if count > 0 {
      StagesExtend(a, count - 1, refused, r);
    }
  }

  lemma NextStage(a: Agenda, refused: seq<set<Task>>, r: set<Task>)
    requires a.ticks > 0
    ensures Stages(a, |refused| + 1, refused + [r]) == Stage(Stages(a, |refused|, refused), |refused|, r)
  {
    StagesExtend(a, |refused|, refused, r);
  }

  lemma StepDigit(q: nat, slots: nat)
    requires q > 0 && (slots == 64 || slots == 256)
    ensures ((q - 1) % slots + 1) % slots == q % slots
  {
  }

  lemma Carry(n: nat, level: nat)
    requires level < 3 && n % Width(level) == 0
    ensures SlotOf(level, n) == 0 <==> n % Width(level + 1) == 0
  {
    match level
    case 0 =>
    case 1 =>
    case 2 =>
  }

  // Advancing the cursor of the next level that rolls over brings its digit up to the tick.
  lemma AdvancedDigit(n: nat, level: nat)
    requires n > 0 && level < 4 && n % Width(level) == 0
    ensures (Base(level, n, level) % SlotCount(level) + 1) % SlotCount(level) == SlotOf(level, n)
  {
    assert n / Width(level) > 0 && (n - 1) / Width(level) == n / Width(level) - 1 by {
      match level
      case 0 =>
      case 1 =>
      case 2 =>
      case 3 =>
    }
    StepDigit(n / Width(level), SlotCount(level));
  }

  // No list changes when a cursor does.
  lemma CursorCouples(v: View, w: View, a: Agenda, hand: set<Task>)
    requires Coupled(v, a, hand) && |w.cursor| == 4 && w.slots == v.slots && w.overflow == v.overflow
    ensures Coupled(w, a, hand)
  {
    forall t | t in a.plan ensures Held(w, t, a.plan[t]) {
      assert Held(v, t, a.plan[t]);
    }
    forall t, l, s ensures SlotEntry(w, a, t, l, s) {
      assert SlotEntry(v, a, t, l, s);
    }
    forall e ensures HeapEntry(w, a, hand, e) {
      assert HeapEntry(v, a, hand, e);
    }
  }

  lemma {:induction false} StagesKeepFires(a: Agenda, count: nat, refused: seq<set<Task>>)
    requires a.ticks > 0
    ensures Stages(a, count, refused).fires.Keys == a.fires.Keys
  {
    if count > 0 {
      StagesKeepFires(a, count - 1, refused);
    }
  }

  lemma RestOfCursors(v: View, n: nat, adv: nat)
    requires Shape(v) && n > 0 && CursorsAt(v, n, adv) && adv >= Rollover(n)
    ensures CursorsAt(v, n, 4)
  {
    forall l | 0 <= l < 4 ensures v.cursor[l] == Base(l, n, 4) % SlotCount(l) {
      RolloverWidths(n, l);
    }
  }

  // The clock moves and no cursor has moved yet.
  lemma TickBegins(v: View, a: Agenda, wall: int)
    requires Coupled(v, a, {}) && CursorsAt(v, a.ticks, 4) && Conserved(a)
    ensures var c := Clocked(a, wall);
            Coupled(v, c, {}) && CursorsAt(v, c.ticks, 0) && ConservedMid(c, 0)
  {
    ShrinkCouples(v, a, {}, Clocked(a, wall), {});
    ClockConserves(a, wall);
  }
}
