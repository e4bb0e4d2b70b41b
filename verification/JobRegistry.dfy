/** The job store as its callers see it: a table of jobs, the IDs queued for their next trigger, and the IDs
    with changes the database does not have yet. */
module JobRegistry {
  import opened Basics

  const JOB_STOP := 0
  const JOB_RUN := 1

  // `config` stands for the fields the store only carries.
  datatype JobInfo = JobInfo(id: int, status: int, next: Option<int>, last: Option<int>, config: string)

  const NO_JOB := JobInfo(0, JOB_STOP, None, None, "")

  datatype Registry = Registry(jobs: map<int, JobInfo>, queued: set<int>, dirty: set<int>)

  predicate Runnable(j: JobInfo) {
    j.status == JOB_RUN && j.next.Some?
  }

  // Every queued job is in JobRun status.
  ghost predicate NoneStale(r: Registry) {
    forall id :: id in r.queued ==> id in r.jobs && r.jobs[id].status == JOB_RUN
  }

  function Added(r: Registry, job: JobInfo): Registry {
    Registry(r.jobs[job.id := job],
             if Runnable(job) then r.queued + {job.id} else r.queued - {job.id},
             r.dirty + {job.id})
  }

  function Removed(r: Registry, id: int): Registry {
    Registry(r.jobs - {id}, r.queued - {id}, r.dirty - {id})
  }

  // A queued job stays queued under its new time; a popped one comes back if it may still run.
  function Retimed(r: Registry, id: int, next: int, last: int): Registry {
    if id !in r.jobs then r
    else
      var job := r.jobs[id].(next := Some(next), last := Some(last));
      Registry(r.jobs[id := job], if job.status == JOB_RUN then r.queued + {id} else r.queued, r.dirty + {id})
  }

  function Restatused(r: Registry, id: int, status: int): Registry {
    if id !in r.jobs then r
    else
      var job := r.jobs[id].(status := status);
      Registry(r.jobs[id := job],
               if status == JOB_STOP then r.queued - {id} else if Runnable(job) then r.queued + {id} else r.queued,
               r.dirty + {id})
  }

  function Dequeued(r: Registry, ids: set<int>): Registry {
    r.(queued := r.queued - ids)
  }

  function Marked(r: Registry, id: int): Registry {
    if id in r.jobs then r.(dirty := r.dirty + {id}) else r
  }

  function Requeued(r: Registry, jobs: seq<JobInfo>): Registry {
    r.(queued := r.queued + Among(jobs))
  }

  // Rows read from the database at start: nothing to save.
  function Loaded(r: Registry, job: JobInfo): Registry {
    Registry(r.jobs[job.id := job],
             if Runnable(job) then r.queued + {job.id} else r.queued - {job.id},
             r.dirty - {job.id})
  }

  function LoadedAll(r: Registry, jobs: seq<JobInfo>): Registry {
    if jobs == [] then r else Loaded(LoadedAll(r, jobs[..|jobs| - 1]), jobs[|jobs| - 1])
  }

  // ---------- What each operation means for one job ----------

  /** Every other job, its place in the queue and its flag are as they were. */
  ghost predicate SameBut(r: Registry, u: Registry, id: int) {
    forall k :: k != id ==>
      && (k in u.jobs <==> k in r.jobs) && (k in r.jobs ==> u.jobs[k] == r.jobs[k])
      && (k in u.queued <==> k in r.queued) && (k in u.dirty <==> k in r.dirty)
  }

  /** The job as it is given, to be saved, and queued exactly if it runs and has a time. */
  ghost predicate HasJob(u: Registry, job: JobInfo) {
    && job.id in u.jobs && u.jobs[job.id] == job && job.id in u.dirty
    && (job.id in u.queued <==> job.status == JOB_RUN && job.next.Some?)
  }

  ghost predicate HasNoJob(u: Registry, id: int) {
    id !in u.jobs && id !in u.queued && id !in u.dirty
  }

  /** The job with these two times, to be saved; a running job is queued (again), another where it was. */
  ghost predicate Rescheduled(r: Registry, u: Registry, id: int, next: int, last: int) {
    && id in r.jobs && id in u.jobs && id in u.dirty
    && u.jobs[id] == r.jobs[id].(next := Some(next), last := Some(last))
    && (id in u.queued <==> r.jobs[id].status == JOB_RUN || id in r.queued)
  }

  /** The job with this status, to be saved; out of the queue if it stops, in it if it runs and has a time. */
  ghost predicate Switched(r: Registry, u: Registry, id: int, status: int) {
    && id in r.jobs && id in u.jobs && id in u.dirty && u.jobs[id] == r.jobs[id].(status := status)
    && (status == JOB_STOP ==> id !in u.queued)
    && (status == JOB_RUN ==> (id in u.queued <==> r.jobs[id].next.Some? || id in r.queued))
    && (status != JOB_STOP && status != JOB_RUN ==> (id in u.queued <==> id in r.queued))
  }

  lemma OperationsMean(r: Registry, job: JobInfo, id: int, next: int, last: int, status: int)
    ensures SameBut(r, Added(r, job), job.id) && HasJob(Added(r, job), job)
    ensures SameBut(r, Removed(r, id), id) && HasNoJob(Removed(r, id), id)
    ensures SameBut(r, Retimed(r, id, next, last), id) && SameBut(r, Restatused(r, id, status), id)
    ensures id in r.jobs ==> Rescheduled(r, Retimed(r, id, next, last), id, next, last)
    ensures id in r.jobs ==> Switched(r, Restatused(r, id, status), id, status)
    ensures id !in r.jobs ==> Retimed(r, id, next, last) == r && Restatused(r, id, status) == r
  {
  }

  // ---------- What is due ----------

  /** What PopDue may take and drop: due jobs only, running ones and stale ones, none later than one it leaves, and no
      more than the limit; below the limit, all that are due. */
  predicate Pops(r: Registry, deadline: int, limit: int, taken: set<int>, dropped: set<int>) {
    && taken + dropped <= r.queued && taken !! dropped
    && (forall id :: id in taken ==> DueBy(r, id, deadline) && r.jobs[id].status == JOB_RUN)
    && (forall id :: id in dropped ==> DueBy(r, id, deadline) && r.jobs[id].status != JOB_RUN)
    && |taken| <= (if limit > 0 then limit else 0)
    && (|taken| < limit ==> forall id :: id in r.queued && DueBy(r, id, deadline) ==> id in taken + dropped)
    && (forall x, y :: x in taken && y in r.queued && y !in taken + dropped ==> !Earlier(r, y, x))
  }

  predicate DueBy(r: Registry, id: int, deadline: int) {
    id in r.jobs && r.jobs[id].next.Some? && r.jobs[id].next.value <= deadline
  }

  predicate Earlier(r: Registry, x: int, y: int) {
    && x in r.jobs && y in r.jobs && r.jobs[x].next.Some? && r.jobs[y].next.Some?
    && r.jobs[x].next.value < r.jobs[y].next.value
  }

  // ---------- Bootstrap ----------

  // The row with this ID that was read last.
  function LastRow(jobs: seq<JobInfo>, id: int): (row: Option<JobInfo>)
    ensures row.Some? ==> row.value in jobs && row.value.id == id
    ensures row.None? ==> forall job :: job in jobs ==> job.id != id
  {
    if jobs == [] then None
    else if jobs[|jobs| - 1].id == id then Some(jobs[|jobs| - 1])
    else LastRow(jobs[..|jobs| - 1], id)
  }

  /** Loading leaves, for every ID read, the row read last: clean, and queued exactly if it runs and has a time.  Other
      IDs are as they were. */
  lemma {:induction false} LoadedMeans(r: Registry, jobs: seq<JobInfo>, id: int)
    ensures var u := LoadedAll(r, jobs);
            match LastRow(jobs, id)
            case Some(row) =>
              && id in u.jobs && u.jobs[id] == row && id !in u.dirty
              && (id in u.queued <==> row.status == JOB_RUN && row.next.Some?)
            case None =>
              && (id in u.jobs <==> id in r.jobs) && (id in r.jobs ==> u.jobs[id] == r.jobs[id])
              && (id in u.queued <==> id in r.queued) && (id in u.dirty <==> id in r.dirty)
  {
    if jobs != [] {
      LoadedMeans(r, jobs[..|jobs| - 1], id);
    }
  }

  /** Loading in pages is loading all the rows. */
  lemma {:induction false} LoadedPages(r: Registry, first: seq<JobInfo>, rest: seq<JobInfo>)
    ensures LoadedAll(LoadedAll(r, first), rest) == LoadedAll(r, first + rest)
  {
    if rest == [] {
      assert first + rest == first;
    } else {
      var n := |rest| - 1;
      LoadedPages(r, first, rest[..n]);
      assert (first + rest)[..|first| + n] == first + rest[..n];
    }
  }

  // Row k has the ID of a job that is queued by then.
  ghost predicate ReloadsQueued(r: Registry, jobs: seq<JobInfo>, k: nat)
    requires k < |jobs|
  {
    jobs[k].id in LoadedAll(r, jobs[..k]).queued
  }

  // One of the first i rows does.
  ghost predicate ReloadsSome(r: Registry, jobs: seq<JobInfo>, i: nat)
    requires i <= |jobs|
  {
    exists k :: 0 <= k < i && ReloadsQueued(r, jobs, k)
  }

  lemma LoadedNext(r: Registry, jobs: seq<JobInfo>, i: nat)
    requires i < |jobs|
    ensures var before := LoadedAll(r, jobs[..i]);
            && LoadedAll(r, jobs[..i + 1]) == Loaded(before, jobs[i])
            && |Loaded(before, jobs[i]).jobs|
               == (if jobs[i].id in before.jobs then |before.jobs| else |before.jobs| + 1)
            && (ReloadsSome(r, jobs, i + 1) <==> ReloadsSome(r, jobs, i) || jobs[i].id in before.queued)
  {
    assert jobs[..i + 1][..i] == jobs[..i];
    PutSize(LoadedAll(r, jobs[..i]).jobs, jobs[i].id, jobs[i]);
    assert ReloadsQueued(r, jobs, i) <==> jobs[i].id in LoadedAll(r, jobs[..i]).queued;
  }

  lemma PutSize(jobs: map<int, JobInfo>, id: int, job: JobInfo)
    ensures |jobs[id := job]| == if id in jobs then |jobs| else |jobs| + 1
  {
    assert jobs[id := job].Keys == if id in jobs then jobs.Keys else jobs.Keys + {id};
  }

  lemma DropSize(jobs: map<int, JobInfo>, id: int)
    ensures |jobs - {id}| == if id in jobs then |jobs| - 1 else |jobs|
  {
    assert (jobs - {id}).Keys == if id in jobs then jobs.Keys - {id} else jobs.Keys;
  }

  ghost predicate NewIds(r: Registry, jobs: seq<JobInfo>) {
    forall i :: 0 <= i < |jobs| ==> jobs[i].id !in r.jobs && forall k :: 0 <= k < i ==> jobs[k].id != jobs[i].id
  }

  lemma {:induction false} LoadedKeys(r: Registry, jobs: seq<JobInfo>)
    ensures forall id :: id in LoadedAll(r, jobs).jobs <==>
                         id in r.jobs || exists k :: 0 <= k < |jobs| && jobs[k].id == id
  {
    if jobs != [] {
      var n := |jobs| - 1;
      LoadedKeys(r, jobs[..n]);
      forall id | id in LoadedAll(r, jobs).jobs && id !in r.jobs
        ensures exists k :: 0 <= k < |jobs| && jobs[k].id == id
      {
        assert id == jobs[n].id || exists k :: 0 <= k < n && jobs[..n][k].id == id;
      }
      forall k | 0 <= k < |jobs| ensures jobs[k].id in LoadedAll(r, jobs).jobs {
        assert k == n || jobs[..n][k].id == jobs[k].id;
      }
    }
  }

  /** Loading counts every row; the table grows by as many only if all the IDs are new. */
  lemma {:induction false} LoadedSize(r: Registry, jobs: seq<JobInfo>)
    ensures |LoadedAll(r, jobs).jobs| <= |r.jobs| + |jobs|
    ensures |LoadedAll(r, jobs).jobs| == |r.jobs| + |jobs| <==> NewIds(r, jobs)
  {
    if jobs != [] {
      var n := |jobs| - 1;
      var before := LoadedAll(r, jobs[..n]).jobs;
      LoadedSize(r, jobs[..n]);
      LoadedKeys(r, jobs[..n]);
      NewIdsSnoc(r, jobs);
      if jobs[n].id in before {
        assert before[jobs[n].id := jobs[n]].Keys == before.Keys;
      } else {
        assert before[jobs[n].id := jobs[n]].Keys == before.Keys + {jobs[n].id};
      }
    }
  }

  lemma NewIdsSnoc(r: Registry, jobs: seq<JobInfo>)
    requires jobs != []
    ensures var n := |jobs| - 1;
            NewIds(r, jobs) <==> NewIds(r, jobs[..n]) && jobs[n].id !in LoadedAll(r, jobs[..n]).jobs
  {
    var n := |jobs| - 1;
    LoadedKeys(r, jobs[..n]);
    assert forall k :: 0 <= k < n ==> jobs[..n][k] == jobs[k];
  }

  function JobIds(jobs: seq<JobInfo>): (ids: seq<int>)
    ensures |ids| == |jobs| && forall i :: 0 <= i < |jobs| ==> ids[i] == jobs[i].id
  {
    if jobs == [] then [] else JobIds(jobs[..|jobs| - 1]) + [jobs[|jobs| - 1].id]
  }

  /** The list has every one of these IDs exactly once, with the job the table holds. */
  ghost predicate Covers(out: seq<JobInfo>, ids: set<int>, jobs: map<int, JobInfo>) {
    && multiset(JobIds(out)) == multiset(ids)
    && forall j :: j in out ==> j.id in jobs && j == jobs[j.id]
  }

  lemma CoversSnoc(out: seq<JobInfo>, ids: set<int>, jobs: map<int, JobInfo>, id: int)
    requires Covers(out, ids, jobs) && id !in ids && id in jobs && jobs[id].id == id
    ensures Covers(out + [jobs[id]], ids + {id}, jobs)
  {
    assert (out + [jobs[id]])[..|out|] == out;
  }

  function Among(jobs: seq<JobInfo>): set<int> {
    set j | j in jobs :: j.id
  }

  lemma CoversIds(out: seq<JobInfo>, ids: set<int>, jobs: map<int, JobInfo>)
    requires Covers(out, ids, jobs)
    ensures Among(out) == ids
  {
    forall id ensures id in Among(out) <==> id in ids {
      assert id in JobIds(out) <==> id in multiset(ids);
      if id in JobIds(out) {
        var k :| 0 <= k < |out| && JobIds(out)[k] == id;
        assert out[k] in out;
      }
    }
  }

  /** These rows now hold the table's jobs, and no other row changed. */
  ghost predicate SavedTo(db0: map<int, JobInfo>, db: map<int, JobInfo>, ids: set<int>, jobs: map<int, JobInfo>) {
    && db.Keys == db0.Keys + ids
    && forall id :: id in db ==> if id in ids then id in jobs && db[id] == jobs[id] else id in db0 && db[id] == db0[id]
  }

  // Where a drain is: `ids` are still to be visited.
  ghost predicate Drained(was: Registry, r: Registry, ids: set<int>, out: seq<JobInfo>) {
    r == was.(dirty := was.dirty * ids) && Covers(out, was.dirty - ids, was.jobs)
  }

  lemma DrainBegins(was: Registry, ids: set<int>)
    requires was.dirty <= ids
    ensures Drained(was, was, ids, [])
  {
    assert was.dirty * ids == was.dirty && was.dirty - ids == {} && JobIds([]) == [];
  }

  lemma DrainEnds(was: Registry, r: Registry, out: seq<JobInfo>)
    requires Drained(was, r, {}, out)
    ensures r == was.(dirty := {}) && Covers(out, was.dirty, r.jobs)
  {
    assert was.dirty * {} == {} && was.dirty - {} == was.dirty;
  }

  lemma DrainStep(was: Registry, ids: set<int>, out: seq<JobInfo>, id: int)
    requires id in ids && id in was.jobs && was.jobs[id].id == id
    requires Drained(was, was.(dirty := was.dirty * ids), ids, out)
    ensures var copy := if id in was.dirty * ids then [was.jobs[id]] else [];
            Drained(was, was.(dirty := was.dirty * ids - {id}), ids - {id}, out + copy)
  {
    assert was.dirty * ids - {id} == was.dirty * (ids - {id});
    if id in was.dirty {
      assert was.dirty - (ids - {id}) == was.dirty - ids + {id};
      CoversSnoc(out, was.dirty - ids, was.jobs, id);
    } else {
      assert was.dirty - (ids - {id}) == was.dirty - ids && out + [] == out;
    }
  }

  // Where a flush is: these copies have been offered to the database.
  ghost predicate Flushed(was: Registry, r: Registry, failing: set<int>, offered: seq<JobInfo>,
                          db0: map<int, JobInfo>, db: map<int, JobInfo>)
  {
    r == was.(dirty := Among(offered) * failing) && SavedTo(db0, db, Among(offered) - failing, was.jobs)
  }

  lemma FlushStep(was: Registry, r: Registry, failing: set<int>, out: seq<JobInfo>, i: nat,
                  db0: map<int, JobInfo>, db: map<int, JobInfo>)
    requires i < |out| && Flushed(was, r, failing, out[..i], db0, db)
    requires out[i].id in was.jobs && out[i] == was.jobs[out[i].id]
    ensures if out[i].id in failing then Flushed(was, Marked(r, out[i].id), failing, out[..i + 1], db0, db)
            else Flushed(was, r, failing, out[..i + 1], db0, db[out[i].id := out[i]])
  {
    assert out[..i + 1] == out[..i] + [out[i]];
    assert Among(out[..i + 1]) == Among(out[..i]) + {out[i].id} by {
      assert out[i] in out[..i + 1];
    }
    assert Among(out[..i + 1]) * failing
        == Among(out[..i]) * failing + if out[i].id in failing then {out[i].id} else {};
    assert Among(out[..i + 1]) - failing
        == Among(out[..i]) - failing + if out[i].id in failing then {} else {out[i].id};
  }
}
