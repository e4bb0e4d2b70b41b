/** The in-memory job store: entries that know their own position in a binary heap of trigger times, a map
    from job ID to entry, and write-behind dirty flags. */
module JobStores {
  import opened Basics
  import opened ContainerHeap
  import opened JobRegistry
  import DueQueue

  class Entry {
    ghost const id: int   // the job's ID never changes
    var job: JobInfo
    var heapIdx: int   // position in the heap, -1 when absent
    var dirty: bool

    constructor (job: JobInfo, dirty: bool)
      ensures this.job == job && heapIdx == -1 && this.dirty == dirty && id == job.id
    {
      id := job.id;
      this.job := job;
      heapIdx := -1;
      this.dirty := dirty;
    }
  }

  /** jobHeap: the slice under container/heap, whose Swap, Push and Pop keep heapIdx. */
  class JobHeap {
    var a: seq<Entry>
    ghost var view: seq<Keyed<Entry>>   // the list container/heap sees: each entry under its trigger time

    /** Every entry in the heap knows its position, and every other entry says -1. */
    ghost predicate Indexed(entries: set<Entry>)
      reads this, entries`heapIdx
    {
      && |view| == |a|
      && (forall i :: 0 <= i < |a| ==> a[i] in entries && a[i].heapIdx == i && view[i].val == a[i])
      && (forall e :: e in entries ==> e.heapIdx == -1 || (0 <= e.heapIdx < |a| && a[e.heapIdx] == e))
    }

    /** Every entry in the heap has a trigger time, and is ordered by it. */
    ghost predicate Timed()
      reads this, a`job
    {
      |view| == |a| && forall i :: 0 <= i < |a| ==> a[i].job.next == Some(view[i].key)
    }

    ghost predicate Ordered(entries: set<Entry>)
      reads this, entries`heapIdx, a`job
    {
      Indexed(entries) && Timed() && IsHeap(view)
    }

    constructor ()
      ensures a == [] && view == []
    {
      a, view := [], [];
    }

    // Entries that are not in the heap can be added and forgotten.
    lemma Regroup(entries: set<Entry>, others: set<Entry>)
      requires Ordered(entries)
      requires forall e :: e in entries - others ==> e.heapIdx < 0
      requires forall e :: e in others - entries ==> e.heapIdx == -1
      ensures Ordered(others)
    {
    }

    function Less(i: nat, j: nat): (less: bool)
      requires i < |a| && j < |a|
      reads this, a`job
      ensures Timed() ==> (less <==> view[i].key < view[j].key)
    {
      var ti, tj := a[i].job.next, a[j].job.next;
      if ti.None? then false else if tj.None? then true else ti.value < tj.value
    }

    method Swap(i: nat, j: nat, ghost entries: set<Entry>)
      requires i < |a| && j < |a| && Indexed(entries) && Timed()
      modifies this, entries`heapIdx
      ensures Indexed(entries) && Timed()
      ensures forall x :: x in entries ==> (x.heapIdx >= 0 <==> old(x.heapIdx) >= 0)
      ensures view == ContainerHeap.Swap(old(view), i, j)
    {
      a, view := a[i := a[j]][j := a[i]], ContainerHeap.Swap(view, i, j);
      a[i].heapIdx := i;
      a[j].heapIdx := j;
    }

    method Up(j0: nat, ghost entries: set<Entry>)
      requires j0 < |a| && Indexed(entries) && Timed()
      modifies this, entries`heapIdx
      ensures Indexed(entries) && Timed()
      ensures forall x :: x in entries ==> (x.heapIdx >= 0 <==> old(x.heapIdx) >= 0)
      ensures view == ContainerHeap.Up(old(view), j0)
    {
      var j := j0;
      ghost var up := ContainerHeap.Up(view, j0);
      while j > 0
        invariant 0 <= j < |a| && Indexed(entries) && Timed()
        invariant forall x :: x in entries ==> (x.heapIdx >= 0 <==> old(x.heapIdx) >= 0)
        invariant ContainerHeap.Up(view, j) == up
      {
        var i := (j - 1) / 2;
        if !Less(j, i) {
          break;
        }
        Swap(i, j, entries);
        j := i;
      }
    }

    method SmallerChild(i: nat, n: nat) returns (j: nat)
      requires 2 * i + 1 < n <= |a| && Timed()
      ensures j == MinChild(view, i, n)
    {
      j := 2 * i + 1;
      if j + 1 < n && Less(j + 1, j) {
        j := j + 1;
      }
    }

    // One turn of down's loop: the entry changes places with its smaller child, or stays.
    method DownStep(i: nat, n: nat, ghost entries: set<Entry>) returns (j: nat)
      requires 2 * i + 1 < n <= |a| && Indexed(entries) && Timed()
      modifies this, entries`heapIdx
      ensures Indexed(entries) && Timed() && |a| == |old(a)|
      ensures forall x :: x in entries ==> (x.heapIdx >= 0 <==> old(x.heapIdx) >= 0)
      ensures j == i || i < j < n
      ensures ContainerHeap.Down(view, j, n) == ContainerHeap.Down(old(view), i, n)
      ensures DownEnd(view, j, n) == DownEnd(old(view), i, n)
      ensures j == i ==> ContainerHeap.Down(view, i, n) == view && DownEnd(view, i, n) == i
    {
      j := SmallerChild(i, n);
      if Less(j, i) {
        Swap(i, j, entries);
      } else {
        j := i;
      }
    }

    /** Reports whether the entry moved. */
    method Down(i0: nat, n: nat, ghost entries: set<Entry>) returns (moved: bool)
      requires n <= |a| && Indexed(entries) && Timed()
      modifies this, entries`heapIdx
      ensures Indexed(entries) && Timed()
      ensures forall x :: x in entries ==> (x.heapIdx >= 0 <==> old(x.heapIdx) >= 0)
      ensures view == ContainerHeap.Down(old(view), i0, n)
      ensures moved <==> ContainerHeap.DownEnd(old(view), i0, n) > i0
    {
      var i := i0;
      ghost var down, end := ContainerHeap.Down(view, i0, n), ContainerHeap.DownEnd(view, i0, n);
      while 2 * i + 1 < n
        invariant i >= i0 && n <= |a| && Indexed(entries) && Timed()
        invariant forall x :: x in entries ==> (x.heapIdx >= 0 <==> old(x.heapIdx) >= 0)
        invariant ContainerHeap.Down(view, i, n) == down && ContainerHeap.DownEnd(view, i, n) == end
        decreases n - i
      {
        var j := DownStep(i, n, entries);
        if j == i {
          break;
        }
        i := j;
      }
      moved := i > i0;
    }

    method Push(e: Entry, ghost entries: set<Entry>)
      requires Indexed(entries) && Timed() && e in entries && e !in a && e.job.next.Some?
      modifies this, entries`heapIdx
      ensures Indexed(entries) && Timed()
      ensures forall x :: x in entries ==> (x.heapIdx >= 0 <==> old(x.heapIdx) >= 0 || x == e)
      ensures view == ContainerHeap.Push(old(view), Keyed(e.job.next.value, e))
    {
      e.heapIdx := |a|;
      a, view := a + [e], view + [Keyed(e.job.next.value, e)];
      Up(|a| - 1, entries);
    }

    // What heap.Pop and heap.Remove end with: the last entry leaves the slice.
    method CutLast(ghost entries: set<Entry>) returns (e: Entry)
      requires Indexed(entries) && Timed() && a != []
      modifies this, entries`heapIdx
      ensures Indexed(entries) && Timed()
      ensures forall x :: x in entries ==> (x.heapIdx >= 0 <==> old(x.heapIdx) >= 0 && x != e)
      ensures e == old(a)[|old(a)| - 1] && e.heapIdx == -1
      ensures view == old(view)[..|old(a)| - 1]
    {
      var n := |a|;
      e := a[n - 1];
      a, view := a[..n - 1], view[..n - 1];
      e.heapIdx := -1;
    }

    method Pop(ghost entries: set<Entry>) returns (e: Entry)
      requires Indexed(entries) && Timed() && a != []
      modifies this, entries`heapIdx
      ensures Indexed(entries) && Timed()
      ensures forall x :: x in entries ==> (x.heapIdx >= 0 <==> old(x.heapIdx) >= 0 && x != e)
      ensures e == old(a)[0] && e.heapIdx == -1
      ensures view == PopRest(old(view))
    {
      var n := |a| - 1;
      Swap(0, n, entries);
      ghost var v := view;
      var _ := Down(0, n, entries);
      SizeDown(v, 0, n);
      assert view[n] == v[n];
      e := CutLast(entries);
    }

    // down, and up if the entry did not move down.
    method Repair(i: nat, n: nat, ghost entries: set<Entry>)
      requires i < |a| && n <= |a| && Indexed(entries) && Timed()
      modifies this, entries`heapIdx
      ensures Indexed(entries) && Timed()
      ensures forall x :: x in entries ==> (x.heapIdx >= 0 <==> old(x.heapIdx) >= 0)
      ensures view == ContainerHeap.Repair(old(view), i, n)
    {
      ghost var v := view;
      DownStays(v, i, n);
      var moved := Down(i, n, entries);
      if !moved {
        Up(i, entries);
      }
    }

    static lemma {:induction false} DownStays(v: seq<Keyed<Entry>>, i: nat, n: nat)
      requires n <= |v|
      ensures DownEnd(v, i, n) <= i ==> ContainerHeap.Down(v, i, n) == v
    {
      if 2 * i + 1 < n {
        var c := MinChild(v, i, n);
        if v[c].key < v[i].key {
          DownEndBelow(ContainerHeap.Swap(v, i, c), c, n);
        }
      }
    }

    // Removing below the top: the entry changes places with the last one, which is then repaired.
    method MoveToEnd(i: nat, ghost entries: set<Entry>)
      requires i < |a| - 1 && Indexed(entries) && Timed()
      modifies this, entries`heapIdx
      ensures Indexed(entries) && Timed() && |a| == |old(a)| && a[|a| - 1] == old(a)[i]
      ensures forall x :: x in entries ==> (x.heapIdx >= 0 <==> old(x.heapIdx) >= 0)
      ensures view[..|a| - 1] == ContainerHeap.Remove(old(view), i)
    {
      var n := |a| - 1;
      ghost var r := RemoveParts(view, i);
      Swap(i, n, entries);
      Repair(i, n, entries);
      assert view == r;
    }

    static lemma RemoveParts(v: seq<Keyed<Entry>>, i: nat) returns (r: seq<Keyed<Entry>>)
      requires i < |v| - 1
      ensures r == ContainerHeap.Repair(ContainerHeap.Swap(v, i, |v| - 1), i, |v| - 1)
      ensures |r| == |v| && r[|v| - 1] == v[i] && r[..|v| - 1] == ContainerHeap.Remove(v, i)
    {
      r := ContainerHeap.Repair(ContainerHeap.Swap(v, i, |v| - 1), i, |v| - 1);
      SizeRepair(ContainerHeap.Swap(v, i, |v| - 1), i, |v| - 1);
    }

    method Remove(i: nat, ghost entries: set<Entry>) returns (e: Entry)
      requires i < |a| && Indexed(entries) && Timed()
      modifies this, entries`heapIdx
      ensures Indexed(entries) && Timed()
      ensures forall x :: x in entries ==> (x.heapIdx >= 0 <==> old(x.heapIdx) >= 0 && x != e)
      ensures e == old(a)[i] && e.heapIdx == -1
      ensures view == ContainerHeap.Remove(old(view), i)
    {
      ghost var rest := ContainerHeap.Remove(view, i);
      if |a| - 1 != i {
        MoveToEnd(i, entries);
      }
      assert view[..|a| - 1] == rest;
      e := CutLast(entries);
    }

    // heap.Pop on an entry that is due; a stale one yields no copy.
    method PopTop(ghost entries: set<Entry>, ghost jobs: map<int, JobInfo>)
      returns (copy: seq<JobInfo>, ghost p: DueQueue.Popped<Entry>)
      requires Ordered(entries) && Mirrors(jobs, entries) && a != []
      modifies this, entries`heapIdx
      ensures Ordered(entries) && view == PopRest(old(view)) && |a| < |old(a)|
      ensures Copies(jobs, copy, p.taken) && Out(p, jobs, entries)
      ensures p == Split(old(view)[0], Stale(jobs, entries)) && |copy| == |p.taken|
      ensures Gone(p) <= old(InHeap(entries)) && InHeap(entries) == old(InHeap(entries)) - Gone(p)
    {
      var top := a[0];
      p := Split(view[0], Stale(jobs, entries));
      PopHeap(view);
      var _ := Pop(entries);
      copy := if top.job.status == JOB_RUN then [top.job] else [];
    }

    // One turn of the loop: stop at the first entry that is not due, else pop.
    method PopNext(deadline: int, left: int, ghost entries: set<Entry>, ghost jobs: map<int, JobInfo>)
      returns (stop: bool, copy: seq<JobInfo>, left1: int,
               ghost p: DueQueue.Popped<Entry>, ghost rest: DueQueue.Popped<Entry>)
      requires Ordered(entries) && Mirrors(jobs, entries)
      modifies this, entries`heapIdx
      ensures Ordered(entries) && Copies(jobs, copy, p.taken) && Out(p, jobs, entries)
      ensures DueQueue.PopDue(old(view), deadline, left, Stale(jobs, entries)) == Continued(p, rest)
      ensures left1 == left - |copy| && rest == DueQueue.PopDue(view, deadline, left1, Stale(jobs, entries))
      ensures stop ==> rest == DueQueue.Popped([], [], view)
      ensures !stop ==> |a| < |old(a)|
      ensures Gone(p) <= old(InHeap(entries)) && InHeap(entries) == old(InHeap(entries)) - Gone(p)
    {
      stop, copy, p := true, [], DueQueue.Popped([], [], []);
      if a != [] && left > 0 {
        stop := a[0].job.next.None? || a[0].job.next.value > deadline;
      }
      if !stop {
        copy, p := PopTop(entries, jobs);
      }
      left1 := left - |copy|;
      rest := DueQueue.PopDue(view, deadline, left1, Stale(jobs, entries));
    }

    /** The loop of PopDue hands out the copies, and leaves the heap, that DueQueue.PopDue describes. */
    method PopDue(deadline: int, limit: int, ghost entries: set<Entry>, ghost jobs: map<int, JobInfo>)
      returns (result: seq<JobInfo>, ghost popped: DueQueue.Popped<Entry>)
      requires Ordered(entries) && Mirrors(jobs, entries)
      modifies this, entries`heapIdx
      ensures Ordered(entries) && view == popped.rest
      ensures popped == DueQueue.PopDue(old(view), deadline, limit, Stale(jobs, entries))
      ensures Copies(jobs, result, popped.taken) && Out(popped, jobs, entries)
      ensures Gone(popped) <= old(InHeap(entries)) && InHeap(entries) == old(InHeap(entries)) - Gone(popped)
    {
      ghost var p, rest := DueQueue.Popped([], [], []), DueQueue.PopDue(view, deadline, limit, Stale(jobs, entries));
      popped, result := rest, [];
      var left, stop := limit, false;
      while !stop
        invariant Ordered(entries) && Traced(jobs, entries, popped, p, rest, result)
        invariant Gone(p) <= old(InHeap(entries)) && InHeap(entries) == old(InHeap(entries)) - Gone(p)
        invariant rest == DueQueue.PopDue(view, deadline, left, Stale(jobs, entries))
        invariant stop ==> rest == DueQueue.Popped([], [], view)
        decreases if stop then 0 else 1 + |a|
      {
        var copy;
        ghost var q, r;
        stop, copy, left, q, r := PopNext(deadline, left, entries, jobs);
        PopOnward(jobs, entries, popped, p, q, r, result, copy);
        result, p, rest := result + copy, Continued(p, q), r;
      }
      assert popped == p.(rest := view);
    }

    // addToHeap and removeFromHeap: a no-op if the entry is already where it should be.
    method Insert(e: Entry, ghost entries: set<Entry>)
      requires Ordered(entries) && e in entries && e.job.next.Some?
      modifies this, entries`heapIdx
      ensures Ordered(entries)
      ensures forall x :: x in entries ==> (x.heapIdx >= 0 <==> old(x.heapIdx) >= 0 || x == e)
      ensures old(e.heapIdx) >= 0 ==> a == old(a) && view == old(view)
    {
      if e.heapIdx < 0 {
        PushHeap(view, Keyed(e.job.next.value, e));
        Push(e, entries);
      }
    }

    method Delete(e: Entry, ghost entries: set<Entry>)
      requires Ordered(entries) && e in entries
      modifies this, entries`heapIdx
      ensures Ordered(entries)
      ensures forall x :: x in entries ==> (x.heapIdx >= 0 <==> old(x.heapIdx) >= 0 && x != e)
      ensures old(e.heapIdx) < 0 ==> a == old(a) && view == old(view)
    {
      if e.heapIdx >= 0 {
        RemoveHeap(view, e.heapIdx);
        var _ := Remove(e.heapIdx, entries);
      }
    }

    /** Repairs the heap after the entry at i has been given another trigger time. */
    method Fix(i: nat, ghost entries: set<Entry>)
      requires i < |a| && Indexed(entries) && TimedBut(i) && a[i].job.next.Some? && IsHeap(view)
      modifies this, entries`heapIdx
      ensures Ordered(entries)
      ensures forall x :: x in entries ==> (x.heapIdx >= 0 <==> old(x.heapIdx) >= 0)
      ensures |old(view)| == |old(a)|
      ensures view == ContainerHeap.Fix(old(view)[i := Keyed(old(a[i].job.next.value), old(a[i]))], i)
    {
      ghost var x := Keyed(a[i].job.next.value, a[i]);
      FixHeap(view, i, x);
      view := view[i := x];
      Repair(i, |a|, entries);
    }

    ghost predicate TimedBut(k: nat)
      reads this, a`job
    {
      |view| == |a| && forall i :: 0 <= i < |a| && i != k ==> a[i].job.next == Some(view[i].key)
    }
  }

  /** Store.  The map and the heap are one object graph: every heap entry is current in the map. */
  class Store {
    var jobByID: map<int, Entry>
    const heap: JobHeap
    var count: int
    ghost var entries: set<Entry>
    ghost var state: Registry

    /** The map holds one entry per ID, and the entries are what the state says. */
    ghost predicate Booked()
      reads this, entries
    {
      && (forall id :: id in state.jobs <==> id in jobByID)
      && (forall id :: id in state.queued || id in state.dirty ==> id in jobByID)
      && (forall id :: id in jobByID ==> jobByID[id] in entries && jobByID[id].id == id)
      && (forall e :: e in entries ==> e.id in jobByID && jobByID[e.id] == e && ShownAs(e))
    }

    ghost predicate ShownAs(e: Entry)
      reads this, e
    {
      && e.job.id == e.id && e.id in state.jobs && state.jobs[e.id] == e.job
      && (e.id in state.queued <==> e.heapIdx >= 0)
      && (e.id in state.dirty <==> e.dirty)
    }

    ghost predicate Valid()
      reads this, heap, heap.a`job, entries
    {
      Booked() && heap.Ordered(entries) && count == |state.jobs|
    }

    constructor ()
      ensures Valid() && state == Registry(map[], {}, {}) && fresh(heap)
    {
      jobByID, entries := map[], {};
      state := Registry(map[], {}, {});
      heap := new JobHeap();
      count := 0;
    }

    // ---------- One thing at a time: the heap, an entry's job, the map ----------

    method AddToHeap(e: Entry)
      requires Valid() && e in entries && e.job.next.Some?
      modifies `state, heap, entries`heapIdx
      ensures Valid() && state == old(state).(queued := old(state).queued + {e.job.id})
    {
      heap.Insert(e, entries);
      state := state.(queued := state.queued + {e.job.id});
      forall x | x in entries ensures ShownAs(x) {
      }
    }

    method RemoveFromHeap(e: Entry)
      requires Valid() && e in entries
      modifies `state, heap, entries`heapIdx
      ensures Valid() && state == old(state).(queued := old(state).queued - {e.job.id}) && e.heapIdx < 0
    {
      heap.Delete(e, entries);
      state := state.(queued := state.queued - {e.job.id});
      forall x | x in entries ensures ShownAs(x) {
      }
    }

    // The entry's job in place, and its flag.
    method Rebook(e: Entry, job: JobInfo)
      requires Booked() && e in entries && job.id == e.job.id
      modifies `state, e`job, e`dirty
      ensures Booked() && e.job == job
      ensures state == old(state).(jobs := old(state).jobs[job.id := job], dirty := old(state).dirty + {job.id})
    {
      e.job, e.dirty := job, true;
      state := state.(jobs := state.jobs[job.id := job], dirty := state.dirty + {job.id});
    }

    // Changes that do not touch the order of the heap.
    method Rewrite(e: Entry, job: JobInfo)
      requires Valid() && e in entries && job.id == e.job.id && (job.next == e.job.next || e.heapIdx < 0)
      modifies `state, e`job, e`dirty
      ensures Valid() && e.job == job
      ensures state == old(state).(jobs := old(state).jobs[job.id := job], dirty := old(state).dirty + {job.id})
    {
      Rebook(e, job);
    }

    // The key changes in place, so the heap is out of order at this entry only.
    method Rekey(e: Entry, job: JobInfo)
      requires Valid() && e in entries && job.id == e.job.id && job.next.Some? && e.heapIdx >= 0
      modifies `state, e`job, e`dirty
      ensures Booked() && count == |state.jobs| && e.job == job && e.heapIdx >= 0
      ensures heap.Indexed(entries) && heap.TimedBut(e.heapIdx) && IsHeap(heap.view)
      ensures state == old(state).(jobs := old(state).jobs[job.id := job], dirty := old(state).dirty + {job.id})
    {
      Rebook(e, job);
    }

    method SetFlag(e: Entry, dirty: bool)
      requires Booked() && e in entries
      modifies `state, e`dirty
      ensures Booked()
      ensures state == old(state).(dirty := if dirty then old(state).dirty + {e.id} else old(state).dirty - {e.id})
    {
      e.dirty := dirty;
      state := state.(dirty := if dirty then state.dirty + {e.id} else state.dirty - {e.id});
    }

    method Reschedule(e: Entry, job: JobInfo)
      requires Valid() && e in entries && job.id == e.job.id && job.next.Some? && e.heapIdx >= 0
      modifies `state, e`job, e`dirty, heap, entries`heapIdx
      ensures Valid()
      ensures state == old(state).(jobs := old(state).jobs[job.id := job], dirty := old(state).dirty + {job.id})
    {
      Rekey(e, job);
      heap.Fix(e.heapIdx, entries);
    }

    // The map's Swap: e takes the place of whatever had its ID.
    method Exchange(e: Entry)
      requires Valid() && e !in entries && e.heapIdx == -1 && e.dirty && e.job.id == e.id
      requires e.job.id in jobByID ==> jobByID[e.job.id].heapIdx < 0
      modifies `jobByID, `count, `entries, `state
      ensures Valid() && entries <= old(entries) + {e} && e in entries
      ensures state == Registry(old(state).jobs[e.job.id := e.job], old(state).queued, old(state).dirty + {e.job.id})
    {
      TradesPlaces(e);
      BookIn(e);
    }

    // The entry that has this ID.
    ghost function Holder(id: int): set<Entry>
      reads this
    {
      if id in jobByID then {jobByID[id]} else {}
    }

    lemma TradesPlaces(e: Entry)
      requires heap.Ordered(entries) && e.heapIdx == -1
      requires e.id in jobByID ==> jobByID[e.id].heapIdx < 0
      ensures heap.Ordered(entries - Holder(e.id) + {e})
    {
      heap.Regroup(entries, entries - Holder(e.id) + {e});
    }

    method BookIn(e: Entry)
      requires Booked() && count == |state.jobs|
      requires e !in entries && e.heapIdx == -1 && e.dirty && e.job.id == e.id
      requires e.job.id in jobByID ==> jobByID[e.job.id].heapIdx < 0
      modifies `jobByID, `count, `entries, `state
      ensures Booked() && count == |state.jobs| && entries == old(entries) - old(Holder(e.id)) + {e}
      ensures state == Registry(old(state).jobs[e.job.id := e.job], old(state).queued, old(state).dirty + {e.job.id})
    {
      PutSize(state.jobs, e.job.id, e.job);
      if e.job.id in jobByID {
        entries := entries - {jobByID[e.job.id]};
      } else {
        count := count + 1;
      }
      entries := entries + {e};
      jobByID := jobByID[e.job.id := e];
      state := Registry(state.jobs[e.job.id := e.job], state.queued, state.dirty + {e.job.id});
    }

    method Forget(e: Entry)
      requires Valid() && e in entries && e.heapIdx < 0
      modifies `jobByID, `count, `entries, `state
      ensures Valid() && entries == old(entries) - {e}
      ensures state == Removed(old(state), e.job.id)
    {
      heap.Regroup(entries, entries - {e});
      BookOut(e);
    }

    method BookOut(e: Entry)
      requires Booked() && count == |state.jobs| && e in entries && e.heapIdx < 0
      modifies `jobByID, `count, `entries, `state
      ensures Booked() && count == |state.jobs| && entries == old(entries) - {e}
      ensures state == Removed(old(state), e.job.id)
    {
      DropSize(state.jobs, e.job.id);
      count := count - 1;
      entries := entries - {e};
      jobByID := jobByID - {e.job.id};
      state := Removed(state, e.job.id);
    }

    // ---------- The public methods ----------

    /** The replaced entry leaves the heap, so nothing stale can fire for this ID. */
    method Add(job: JobInfo)
      requires Valid()
      modifies this, heap, entries
      ensures Valid() && fresh(entries - old(entries))
      ensures state == Added(old(state), job)
      ensures SameBut(old(state), state, job.id) && HasJob(state, job)
    {
      OperationsMean(state, job, 0, 0, 0, 0);
      AddEntry(job);
    }

    method AddEntry(job: JobInfo)
      requires Valid()
      modifies this, heap, entries
      ensures Valid() && fresh(entries - old(entries))
      ensures state == Added(old(state), job)
    {
      var e := new Entry(job, true);
      if job.id in jobByID {
        RemoveFromHeap(jobByID[job.id]);
      }
      Exchange(e);
      if job.status == JOB_RUN && job.next.Some? {
        AddToHeap(e);
      }
    }

    method Remove(id: int)
      requires Valid()
      modifies this, heap, entries
      ensures Valid() && entries <= old(entries)
      ensures state == Removed(old(state), id)
      ensures SameBut(old(state), state, id) && HasNoJob(state, id)
    {
      if id in jobByID {
        var e := jobByID[id];
        RemoveFromHeap(e);
        Forget(e);
      } else {
        assert state == Removed(state, id);
      }
    }

    method Get(id: int) returns (job: Option<JobInfo>)
      requires Valid()
      ensures job == if id in state.jobs then Some(state.jobs[id]) else None
    {
      if id in jobByID {
        return Some(jobByID[id].job);
      }
      return None;
    }

    /** Reports whether the ID was found. */
    method UpdateNextTrigger(id: int, next: int, last: int) returns (found: bool)
      requires Valid()
      modifies this, heap, entries
      ensures Valid() && entries == old(entries)
      ensures found <==> id in old(state).jobs
      ensures state == Retimed(old(state), id, next, last) && SameBut(old(state), state, id)
      ensures if found then Rescheduled(old(state), state, id, next, last) else state == old(state)
    {
      OperationsMean(state, NO_JOB, id, next, last, 0);
      if id !in jobByID {
        return false;
      }
      var e := jobByID[id];
      var job := e.job.(next := Some(next), last := Some(last));
      if e.heapIdx >= 0 {
        Reschedule(e, job);
      } else {
        Rewrite(e, job);
        if job.status == JOB_RUN {
          AddToHeap(e);
        }
      }
      return true;
    }

    method UpdateStatus(id: int, status: int) returns (found: bool)
      requires Valid()
      modifies this, heap, entries
      ensures Valid() && entries == old(entries)
      ensures found <==> id in old(state).jobs
      ensures state == Restatused(old(state), id, status) && SameBut(old(state), state, id)
      ensures if found then Switched(old(state), state, id, status) else state == old(state)
    {
      OperationsMean(state, NO_JOB, id, 0, 0, status);
      if id !in jobByID {
        return false;
      }
      var e := jobByID[id];
      Rewrite(e, e.job.(status := status));
      if status == JOB_STOP && e.heapIdx >= 0 {
        RemoveFromHeap(e);
      } else if status == JOB_RUN && e.heapIdx < 0 && e.job.next.Some? {
        AddToHeap(e);
      }
      return true;
    }

    method MarkDirty(id: int)
      requires Valid()
      modifies `state, entries`dirty
      ensures Valid()
      ensures state == Marked(old(state), id)
    {
      if id in jobByID {
        SetFlag(jobByID[id], true);
      }
    }

    // ---------- What is due ----------

    method PopDue(deadline: int, limit: int) returns (result: seq<JobInfo>, ghost popped: DueQueue.Popped<Entry>)
      requires Valid()
      modifies `state, heap, entries`heapIdx
      ensures Valid() && popped == DueQueue.PopDue(old(heap.view), deadline, limit, Stale(state.jobs, entries))
      ensures heap.view == popped.rest && Copies(state.jobs, result, popped.taken) && Out(popped, state.jobs, entries)
      ensures state == Dequeued(old(state), Ids(popped.taken) + Ids(popped.dropped))
      ensures Ids(popped.taken) + Ids(popped.dropped) <= old(state).queued
      ensures Pops(old(state), deadline, limit, Among(result), Ids(popped.dropped))
    {
      HeapQueues();
      PopsRight(heap.view, state, jobByID, entries, deadline, limit);
      result, popped := PopLoop(deadline, limit);
      AmongTaken(state.jobs, result, popped.taken);
    }

    lemma AmongTaken(jobs: map<int, JobInfo>, result: seq<JobInfo>, taken: seq<Keyed<Entry>>)
      requires Copies(jobs, result, taken) && forall id :: id in jobs ==> jobs[id].id == id
      ensures Among(result) == Ids(taken)
    {
      forall i | 0 <= i < |result| ensures result[i].id == taken[i].val.id && result[i] in result && taken[i] in taken {
      }
    }

    // The loop, and what it leaves.
    method PopLoop(deadline: int, limit: int) returns (result: seq<JobInfo>, ghost popped: DueQueue.Popped<Entry>)
      requires Valid()
      modifies `state, heap, entries`heapIdx
      ensures Valid() && popped == DueQueue.PopDue(old(heap.view), deadline, limit, Stale(state.jobs, entries))
      ensures heap.view == popped.rest && Copies(state.jobs, result, popped.taken) && Out(popped, state.jobs, entries)
      ensures state == Dequeued(old(state), Ids(popped.taken) + Ids(popped.dropped))
      ensures Ids(popped.taken) + Ids(popped.dropped) <= old(state).queued
    {
      ghost var q := InHeap(entries);
      assert forall e :: e in entries ==> (e.id in state.queued <==> e in q);
      result, popped := heap.PopDue(deadline, limit, entries, state.jobs);
      Unlist(q, popped);
    }

    lemma HeapQueues()
      requires Valid()
      ensures Queues(heap.view, state, jobByID, entries) && IsHeap(heap.view)
    {
      forall x | x in heap.view ensures Queued(x, state, jobByID, entries) {
        var i :| 0 <= i < |heap.view| && heap.view[i] == x;
        assert heap.a[i].heapIdx == i && heap.a[i] == x.val;
      }
      forall id | id in state.queued ensures InQueue(heap.view, id) {
        var e := jobByID[id];
        assert heap.view[e.heapIdx].val == e;
      }
    }

    // The entries that have left the heap are no longer queued.
    ghost method Unlist(q: set<Entry>, popped: DueQueue.Popped<Entry>)
      requires Listed(q) && heap.Ordered(entries) && count == |state.jobs|
      requires Gone(popped) <= q && InHeap(entries) == q - Gone(popped)
      modifies `state
      ensures Valid() && state == Dequeued(old(state), Ids(popped.taken) + Ids(popped.dropped))
      ensures Ids(popped.taken) + Ids(popped.dropped) <= old(state).queued
    {
      IdsOfGone(popped, entries, jobByID);
      state := Dequeued(state, Ids(popped.taken) + Ids(popped.dropped));
      forall e | e in entries ensures ShownAs(e) {
        assert e in InHeap(entries) <==> e.heapIdx >= 0;
      }
    }

    // As Booked, with `q` the entries the state has in the queue.
    ghost predicate Listed(q: set<Entry>)
      reads this, entries`job, entries`dirty
    {
      && q <= entries
      && (forall id :: id in state.jobs <==> id in jobByID)
      && (forall id :: id in state.queued || id in state.dirty ==> id in jobByID)
      && (forall id :: id in jobByID ==> jobByID[id] in entries && jobByID[id].id == id)
      && (forall e :: e in entries ==>
            && e.id in jobByID && jobByID[e.id] == e
            && e.job.id == e.id && e.id in state.jobs && state.jobs[e.id] == e.job
            && (e.id in state.queued <==> e in q) && (e.id in state.dirty <==> e.dirty))
    }

    // PeekDue's second loop: the entries found under the IDs handed out go back into the heap.
    method PutBack(result: seq<JobInfo>)
      requires Valid() && forall j :: j in result ==> j.id in state.jobs && state.jobs[j.id].next.Some?
      modifies `state, heap, entries`heapIdx
      ensures Valid() && state == Requeued(old(state), result)
    {
      for i := 0 to |result|
        invariant Valid() && state == Requeued(old(state), result[..i])
      {
        assert result[..i + 1] == result[..i] + [result[i]];
        if result[i].id in jobByID {
          AddToHeap(jobByID[result[i].id]);
        }
      }
      assert result[..|result|] == result;
    }

    /** The same list as PopDue from the same state; only stale entries leave the queue. */
    method PeekDue(deadline: int, limit: int) returns (result: seq<JobInfo>, ghost popped: DueQueue.Popped<Entry>)
      requires Valid()
      modifies `state, heap, entries`heapIdx
      ensures Valid() && popped == DueQueue.PopDue(old(heap.view), deadline, limit, Stale(state.jobs, entries))
      ensures Copies(state.jobs, result, popped.taken)
      ensures state == Dequeued(old(state), Ids(popped.dropped))
      ensures NoneStale(old(state)) ==> state == old(state)
    {
      DueQueue.PopDueOrders(heap.view, deadline, limit, Stale(state.jobs, entries));
      result, popped := PopLoop(deadline, limit);
      PutBack(result);
    }

    // ---------- Bootstrap ----------

    // Like Valid, but the heap may hold orphans: entries of `all` that the map has lost.
    ghost predicate Loose(all: set<Entry>)
      reads this, heap, heap.a`job, entries, all`heapIdx
    {
      Booked() && heap.Ordered(all) && entries <= all
    }

    // Entries in the heap that the map has lost.
    ghost function Orphans(all: set<Entry>): set<Entry>
      reads this, all`heapIdx
    {
      InHeap(all) - entries
    }

    ghost predicate IsLost(e: Entry)
      reads this
    {
      forall id :: id in jobByID ==> jobByID[id] != e
    }

    lemma OrphansAreLost(all: set<Entry>)
      requires Loose(all)
      ensures Orphans(all) != {} <==> exists e :: e in heap.a && IsLost(e)
    {
      forall e ensures e in Orphans(all) <==> e in heap.a && IsLost(e) {
        assert e in entries ==> jobByID[e.id] == e;
        assert e in InHeap(all) ==> heap.a[e.heapIdx] == e;
      }
      assert forall e :: e in Orphans(all) ==> e in heap.a && IsLost(e);
    }

    method Overwrite(e: Entry, ghost all: set<Entry>)
      requires Loose(all) && e !in all && e.heapIdx == -1 && !e.dirty && e.job.id == e.id
      modifies `jobByID, `count, `entries, `state
      ensures Loose(all + {e}) && e in entries && count == old(count) + 1
      ensures state == Registry(old(state).jobs[e.id := e.job], old(state).queued - {e.id}, old(state).dirty - {e.id})
      ensures entries <= old(entries) + {e} && (e.id !in old(state).jobs ==> entries == old(entries) + {e})
      ensures Orphans(all + {e}) ==
              old(Orphans(all)) + if e.id in old(state).queued then {old(jobByID)[e.id]} else {}
    {
      heap.Regroup(all, all + {e});
      count := count + 1;
      OverBook(e);
    }

    method OverBook(e: Entry)
      requires Booked() && e !in entries && e.heapIdx == -1 && !e.dirty && e.job.id == e.id
      modifies `jobByID, `entries, `state
      ensures Booked() && entries == old(entries) - old(Holder(e.id)) + {e}
      ensures e.id in old(state).queued ==> old(jobByID)[e.id] in old(entries) && old(jobByID)[e.id].heapIdx >= 0
      ensures e.id in old(state).jobs && e.id !in old(state).queued ==> old(jobByID)[e.id].heapIdx < 0
      ensures state == Registry(old(state).jobs[e.id := e.job], old(state).queued - {e.id}, old(state).dirty - {e.id})
    {
      if e.job.id in jobByID {
        entries := entries - {jobByID[e.job.id]};
      }
      entries := entries + {e};
      jobByID := jobByID[e.job.id := e];
      state := Registry(state.jobs[e.id := e.job], state.queued - {e.id}, state.dirty - {e.id});
    }

    method Enlist(e: Entry, ghost all: set<Entry>)
      requires Loose(all) && e in entries && e.job.next.Some?
      modifies `state, heap, all`heapIdx
      ensures Loose(all) && state == old(state).(queued := old(state).queued + {e.id})
      ensures Orphans(all) == old(Orphans(all))
    {
      heap.Insert(e, all);
      state := state.(queued := state.queued + {e.id});
      forall x | x in entries ensures ShownAs(x) {
      }
    }

    method LoadOne(job: JobInfo, ghost all0: set<Entry>) returns (ghost all: set<Entry>)
      requires Loose(all0)
      modifies this, heap, all0`heapIdx
      ensures Loose(all) && fresh(all - all0) && all0 <= all
      ensures state == Loaded(old(state), job) && count == old(count) + 1
      ensures job.id !in old(state).jobs && all0 == old(entries) ==> all == entries
      ensures Orphans(all) != {} <==> old(Orphans(all0)) != {} || job.id in old(state).queued
    {
      var e := new Entry(job, false);
      all := all0 + {e};
      Overwrite(e, all0);
      if job.status == JOB_RUN && job.next.Some? {
        Enlist(e, all);
      }
    }

    /** Existing entries are meant to be replaced, but then the count is too high and the heap keeps them:
        the store is sound afterwards if and only if every ID was new, and the heap holds an entry that is no
        longer in the map if and only if some row had the ID of a queued job. */
    method LoadAll(jobs: seq<JobInfo>)
      requires Valid()
      modifies this, heap, entries
      ensures state == LoadedAll(old(state), jobs) && count == old(count) + |jobs|
      ensures Valid() <==> NewIds(old(state), jobs)
      ensures (exists e :: e in heap.a && IsLost(e)) <==>
              ReloadsSome(old(state), jobs, |jobs|)
    {
      ghost var was := state;
      ghost var all := LoadEach(jobs);
      LoadedSize(was, jobs);
      OrphansAreLost(all);
    }

    // The loop; `all` are the entries of the map and those it has lost.
    method LoadEach(jobs: seq<JobInfo>) returns (ghost all: set<Entry>)
      requires Valid()
      modifies this, heap, entries
      ensures Loose(all) && state == LoadedAll(old(state), jobs) && count == old(count) + |jobs|
      ensures |state.jobs| <= count && (|state.jobs| == count ==> all == entries)
      ensures Orphans(all) != {} <==> ReloadsSome(old(state), jobs, |jobs|)
    {
      ghost var was := state;
      all := entries;
      assert Orphans(all) == {};
      for i := 0 to |jobs|
        invariant Loose(all) && fresh(all - old(entries))
        invariant state == LoadedAll(was, jobs[..i]) && count == old(count) + i
        invariant |state.jobs| <= count && (|state.jobs| == count ==> all == entries)
        invariant Orphans(all) != {} <==> ReloadsSome(was, jobs, i)
      {
        LoadedNext(was, jobs, i);
        all := LoadOne(jobs[i], all);
      }
      assert jobs[..|jobs|] == jobs;
    }

    // ---------- Write-behind ----------

    // One entry of the Range: the compare-and-swap of its flag, and the copy if it was set.
    method DrainEntry(id: int) returns (copy: seq<JobInfo>)
      requires Valid() && id in jobByID
      modifies `state, entries`dirty
      ensures Valid() && jobByID == old(jobByID) && state.jobs[id].id == id
      ensures state == old(state).(dirty := old(state).dirty - {id})
      ensures copy == if id in old(state).dirty then [state.jobs[id]] else []
    {
      copy := [];
      var e := jobByID[id];
      if e.dirty {
        copy := [e.job];
        SetFlag(e, false);
      } else {
        assert state.dirty - {id} == state.dirty;
      }
    }

    method DrainNext(ids0: set<int>, out0: seq<JobInfo>, ghost was: Registry) returns (ids: set<int>, out: seq<JobInfo>)
      requires Valid() && ids0 <= jobByID.Keys && ids0 != {} && Drained(was, state, ids0, out0)
      modifies `state, entries`dirty
      ensures Valid() && jobByID == old(jobByID) && ids < ids0 && Drained(was, state, ids, out)
    {
      EmptyOrNot(ids0);
      var id :| id in ids0;
      var copy := DrainEntry(id);
      DrainStep(was, ids0, out0, id);
      out, ids := out0 + copy, ids0 - {id};
    }

    /** Every job with unsaved changes, once, and no dirty flag left. */
    method DrainDirty() returns (out: seq<JobInfo>)
      requires Valid()
      modifies `state, entries`dirty
      ensures Valid() && state == old(state).(dirty := {})
      ensures Covers(out, old(state).dirty, state.jobs)
    {
      var ids := jobByID.Keys;
      out := [];
      assert forall id :: id in state.dirty ==> id in jobByID;
      DrainBegins(state, ids);
      while ids != {}
        invariant Valid() && ids <= jobByID.Keys && Drained(old(state), state, ids, out)
        decreases ids
      {
        ids, out := DrainNext(ids, out, old(state));
      }
      DrainEnds(old(state), state, out);
    }

    /** One pass of the flush loop with nothing else going on: `failing` are the jobs whose FlushJob fails. */
    method Flush(db0: map<int, JobInfo>, failing: set<int>) returns (db: map<int, JobInfo>)
      requires Valid()
      modifies `state, entries`dirty
      ensures Valid() && state == old(state).(dirty := old(state).dirty * failing)
      ensures SavedTo(db0, db, old(state).dirty - failing, state.jobs)
    {
      var out := DrainDirty();
      CoversIds(out, old(state).dirty, state.jobs);
      db := db0;
      ghost var was := state;
      for i := 0 to |out|
        invariant Valid() && Flushed(was, state, failing, out[..i], db0, db)
      {
        FlushStep(was, state, failing, out, i, db0, db);
        if out[i].id in failing {
          MarkDirty(out[i].id);
        } else {
          db := db[out[i].id := out[i]];
        }
      }
      assert out[..|out|] == out;
    }
  }

  /** What the caller of PopDue or PeekDue sees: runnable jobs that are due, earliest first, at most `limit` of
      them, nothing left behind that is earlier, and nothing due left behind unless the limit was reached. */
  lemma DueJobs(h: seq<Keyed<Entry>>, deadline: int, limit: int, jobs: map<int, JobInfo>, entries: set<Entry>,
                result: seq<JobInfo>, popped: DueQueue.Popped<Entry>)
    requires IsHeap(h) && popped == DueQueue.PopDue(h, deadline, limit, Stale(jobs, entries))
    requires Copies(jobs, result, popped.taken) && Out(popped, jobs, entries)
    ensures forall i :: 0 <= i < |result| ==> Runnable(result[i]) && result[i].next.value <= deadline
    ensures forall i, k :: 0 <= i < k < |result| ==> result[i].next.value <= result[k].next.value
    ensures forall i, x :: 0 <= i < |result| && x in popped.rest ==> result[i].next.value <= x.key
    ensures |result| <= (if limit > 0 then limit else 0)
    ensures |result| < limit ==> forall x :: x in popped.rest ==> x.key > deadline
  {
    var taken := popped.taken;
    DueQueue.PopDueOrders(h, deadline, limit, Stale(jobs, entries));
    DueQueue.PopDueAscends(h, deadline, limit, Stale(jobs, entries));
    DueQueue.PopDueLimit(h, deadline, limit, Stale(jobs, entries));
    forall i | 0 <= i < |result|
      ensures Runnable(result[i]) && result[i].next == Some(taken[i].key) && taken[i] in taken
    {
      assert taken[i] in taken + popped.dropped;
    }
    assert forall i :: 0 <= i < |taken| ==> DueQueue.Keys(taken)[i] == taken[i].key;
  }

  ghost predicate Mirrors(jobs: map<int, JobInfo>, entries: set<Entry>)
    reads entries`job
  {
    forall e :: e in entries ==> e.id in jobs && jobs[e.id] == e.job
  }

  // The entries that are no longer in JobRun status.
  ghost function Stale(jobs: map<int, JobInfo>, entries: set<Entry>): set<Entry> {
    set e | e in entries && e.id in jobs && jobs[e.id].status != JOB_RUN
  }

  /** Every copy handed out is the job of the entry popped at that place. */
  ghost predicate Copies(jobs: map<int, JobInfo>, result: seq<JobInfo>, taken: seq<Keyed<Entry>>) {
    && |result| == |taken|
    && forall i :: 0 <= i < |result| ==> taken[i].val.id in jobs && result[i] == jobs[taken[i].val.id]
  }

  ghost function InHeap(entries: set<Entry>): set<Entry>
    reads entries`heapIdx
  {
    set e | e in entries && e.heapIdx >= 0
  }

  // The root comes out: a stale entry is dropped, any other taken.
  ghost function Split(x: Keyed<Entry>, stale: set<Entry>): DueQueue.Popped<Entry> {
    if x.val in stale then DueQueue.Popped([], [x], []) else DueQueue.Popped([x], [], [])
  }

  ghost function Gone(p: DueQueue.Popped<Entry>): set<Entry> {
    set x | x in p.taken + p.dropped :: x.val
  }

  // What came out of the heap are entries of the store, under their trigger times.
  ghost predicate Out(p: DueQueue.Popped<Entry>, jobs: map<int, JobInfo>, entries: set<Entry>) {
    forall x :: x in p.taken + p.dropped ==> x.val in entries && x.val.id in jobs && jobs[x.val.id].next == Some(x.key)
  }

  lemma IdsGone(p: DueQueue.Popped<Entry>)
    ensures Ids(p.taken) + Ids(p.dropped) == set e | e in Gone(p) :: e.id
  {
    forall x | x in p.taken || x in p.dropped ensures x.val in Gone(p) {
      assert x in p.taken + p.dropped;
    }
  }

  lemma IdsOfGone(p: DueQueue.Popped<Entry>, entries: set<Entry>, byID: map<int, Entry>)
    requires forall e :: e in entries ==> e.id in byID && byID[e.id] == e
    requires forall e :: e in Gone(p) ==> e in entries
    ensures forall e :: e in entries ==> (e.id in Ids(p.taken) + Ids(p.dropped) <==> e in Gone(p))
    ensures forall id :: id in Ids(p.taken) + Ids(p.dropped) ==> id in byID && byID[id] in Gone(p)
  {
    IdsGone(p);
  }

  ghost function Continued(p: DueQueue.Popped<Entry>, q: DueQueue.Popped<Entry>): DueQueue.Popped<Entry> {
    DueQueue.Popped(p.taken + q.taken, p.dropped + q.dropped, q.rest)
  }

  // What has been taken and dropped so far, and what is left to do, make up `popped`.
  ghost predicate Traced(jobs: map<int, JobInfo>, entries: set<Entry>, popped: DueQueue.Popped<Entry>,
                         p: DueQueue.Popped<Entry>, rest: DueQueue.Popped<Entry>, result: seq<JobInfo>)
  {
    Copies(jobs, result, p.taken) && Out(p, jobs, entries) && popped == Continued(p, rest)
  }

  lemma PopOnward(jobs: map<int, JobInfo>, entries: set<Entry>, popped: DueQueue.Popped<Entry>,
                  p: DueQueue.Popped<Entry>, q: DueQueue.Popped<Entry>, r: DueQueue.Popped<Entry>,
                  ps: seq<JobInfo>, qs: seq<JobInfo>)
    requires Traced(jobs, entries, popped, p, Continued(q, r), ps) && Copies(jobs, qs, q.taken) && Out(q, jobs, entries)
    ensures Traced(jobs, entries, popped, Continued(p, q), r, ps + qs)
    ensures Gone(Continued(p, q)) == Gone(p) + Gone(q)
  {
    var pq := Continued(p, q);
    assert p.taken + (q.taken + r.taken) == pq.taken + r.taken;
    assert p.dropped + (q.dropped + r.dropped) == pq.dropped + r.dropped;
    forall x | x in p.taken + p.dropped || x in q.taken + q.dropped ensures x in pq.taken + pq.dropped {
    }
    forall e | e in Gone(p) + Gone(q) ensures e in Gone(pq) {
      var x :| (x in p.taken + p.dropped || x in q.taken + q.dropped) && x.val == e;
      assert x in pq.taken + pq.dropped;
    }
  }

  ghost predicate Queued(x: Keyed<Entry>, r: Registry, byID: map<int, Entry>, entries: set<Entry>) {
    && x.val in entries && x.val.id in byID && byID[x.val.id] == x.val
    && x.val.id in r.queued && x.val.id in r.jobs && r.jobs[x.val.id].next == Some(x.key)
  }

  ghost predicate InQueue(view: seq<Keyed<Entry>>, id: int) {
    exists i :: 0 <= i < |view| && view[i].val.id == id
  }

  /** The list under the heap has every queued ID once, with its entry under its trigger time. */
  ghost predicate Queues(view: seq<Keyed<Entry>>, r: Registry, byID: map<int, Entry>, entries: set<Entry>) {
    && DueQueue.NoneTwice(view)
    && (forall x :: x in view ==> Queued(x, r, byID, entries))
    && (forall id :: id in r.queued ==> InQueue(view, id))
  }

  lemma {:induction false} IdsSize(s: seq<Keyed<Entry>>)
    requires forall i, k :: 0 <= i < k < |s| ==> s[i].val.id != s[k].val.id
    ensures |Ids(s)| == |s|
  {
    if s != [] {
      var n := |s| - 1;
      IdsSize(s[..n]);
      assert s == s[..n] + [s[n]];
      assert Ids(s) == Ids(s[..n]) + {s[n].val.id};
    }
  }

  lemma SameIdSameEntry(x: Keyed<Entry>, y: Keyed<Entry>, r: Registry, byID: map<int, Entry>, entries: set<Entry>)
    requires Queued(x, r, byID, entries) && Queued(y, r, byID, entries)
    ensures x.val.id == y.val.id ==> x == y
  {
  }

  // The popped IDs: as many as entries taken, none taken and dropped, and nothing of them left.
  lemma PoppedIds(view: seq<Keyed<Entry>>, p: DueQueue.Popped<Entry>, r: Registry, byID: map<int, Entry>,
                  entries: set<Entry>)
    requires Queues(view, r, byID, entries)
    requires multiset(view) == multiset(p.taken) + multiset(p.dropped) + multiset(p.rest)
    ensures |Ids(p.taken)| == |p.taken| && Ids(p.taken) !! Ids(p.dropped)
    ensures forall x :: x in p.taken || x in p.dropped || x in p.rest ==> Queued(x, r, byID, entries)
    ensures forall id :: id in r.queued && id !in Ids(p.taken) + Ids(p.dropped) ==>
      exists x :: x in p.rest && x.val.id == id
  {
    DueQueue.PartsApart(view, p.taken, p.dropped, p.rest);
    forall i, k | 0 <= i < k < |p.taken| ensures p.taken[i].val.id != p.taken[k].val.id {
      assert p.taken[i] in p.taken && p.taken[k] in p.taken;
      SameIdSameEntry(p.taken[i], p.taken[k], r, byID, entries);
    }
    IdsSize(p.taken);
    forall x, y | x in p.taken && y in p.dropped ensures x.val.id != y.val.id {
      SameIdSameEntry(x, y, r, byID, entries);
    }
    forall id | id in r.queued && id !in Ids(p.taken) + Ids(p.dropped)
      ensures exists x :: x in p.rest && x.val.id == id
    {
      assert InQueue(view, id);
      var i :| 0 <= i < |view| && view[i].val.id == id;
      assert view[i] in view;
    }
  }

  /** PopDue on the heap is right for the table: it takes and drops what it may, and all it must. */
  lemma PopsRight(view: seq<Keyed<Entry>>, r: Registry, byID: map<int, Entry>, entries: set<Entry>,
                  deadline: int, limit: int)
    requires IsHeap(view) && Queues(view, r, byID, entries)
    ensures var p := DueQueue.PopDue(view, deadline, limit, Stale(r.jobs, entries));
            Pops(r, deadline, limit, Ids(p.taken), Ids(p.dropped))
  {
    var stale := Stale(r.jobs, entries);
    var p := DueQueue.PopDue(view, deadline, limit, stale);
    DueQueue.PopDueConserves(view, deadline, limit, stale);
    DueQueue.PopDueOrders(view, deadline, limit, stale);
    DueQueue.PopDueLimit(view, deadline, limit, stale);
    PoppedIds(view, p, r, byID, entries);
    PopsInOrder(p, r, byID, entries, deadline, limit);
  }

  lemma PopsInOrder(p: DueQueue.Popped<Entry>, r: Registry, byID: map<int, Entry>, entries: set<Entry>,
                    deadline: int, limit: int)
    requires |Ids(p.taken)| == |p.taken| <= (if limit > 0 then limit else 0) && Ids(p.taken) !! Ids(p.dropped)
    requires forall x :: x in p.taken || x in p.dropped || x in p.rest ==> Queued(x, r, byID, entries)
    requires forall id :: id in r.queued && id !in Ids(p.taken) + Ids(p.dropped) ==>
      exists x :: x in p.rest && x.val.id == id
    requires forall x :: x in p.taken ==> x.key <= deadline && x.val !in Stale(r.jobs, entries)
    requires forall x :: x in p.dropped ==> x.key <= deadline && x.val in Stale(r.jobs, entries)
    requires forall x, y :: (x in p.taken || x in p.dropped) && y in p.rest ==> x.key <= y.key
    requires |p.taken| < limit ==> forall y :: y in p.rest ==> y.key > deadline
    ensures Pops(r, deadline, limit, Ids(p.taken), Ids(p.dropped))
  {
  }

  ghost function Ids(s: seq<Keyed<Entry>>): set<int> {
    set x | x in s :: x.val.id
  }
}
