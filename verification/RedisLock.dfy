/** The Redis lock with its TTL, and handleTask as its client: any number of runs for any jobs, on one clock in
    milliseconds. */
module RedisLock {
  import opened Basics
  import opened IdLists

  datatype Entry = Entry(value: nat, expires: Option<int>)

  // The entry outlasts this moment; without an expiry time it outlasts all.
  predicate Lasts(e: Entry, now: int) {
    e.expires.Some? ==> now < e.expires.value
  }

  // A key is gone once its time has come.
  predicate Present(keys: map<string, Entry>, key: string, now: int) {
    key in keys && Lasts(keys[key], now)
  }

  predicate OwnedBy(keys: map<string, Entry>, key: string, value: nat, now: int) {
    Present(keys, key, now) && keys[key].value == value
  }

  // The client sends SET NX PX, and for a TTL of 0 a plain SETNX.
  function Expiry(ttl: int, now: int): Option<int> {
    if ttl == 0 then None else Some(now + ttl)
  }

  function SetNX(keys: map<string, Entry>, key: string, value: nat, ttl: int, now: int): map<string, Entry> {
    if Present(keys, key, now) then keys else keys[key := Entry(value, Expiry(ttl, now))]
  }

  // The release script: DEL if the value is ours.
  function Del(keys: map<string, Entry>, key: string, value: nat, now: int): map<string, Entry> {
    if OwnedBy(keys, key, value, now) then keys - {key} else keys
  }

  // The extend script: PEXPIRE if the value is ours; a time that is not positive deletes the key.
  function PExpire(keys: map<string, Entry>, key: string, value: nat, ttl: int, now: int): map<string, Entry> {
    if !OwnedBy(keys, key, value, now) then keys
    else if ttl <= 0 then keys - {key}
    else keys[key := Entry(value, Some(now + ttl))]
  }

  function LockKey(job: int): string {
    "go-jobs:lock:job:" + FormatInt(job)
  }

  lemma LockKeyInjective(i: int, j: int)
    requires LockKey(i) == LockKey(j)
    ensures i == j
  {
    assert LockKey(i)[17..] == FormatInt(i) && LockKey(j)[17..] == FormatInt(j);
    FormatInjective(i, j);
  }

  /** Every other key is as it was. */
  ghost predicate SameBut(keys: map<string, Entry>, after: map<string, Entry>, key: string) {
    forall k :: k != key ==> (k in after <==> k in keys) && (k in keys ==> after[k] == keys[k])
  }

  /** The server's keys, with the three operations on them. */
  class Server {
    var keys: map<string, Entry>

    constructor ()
      ensures keys == map[]
    {
      keys := map[];
    }

    method TryLock(key: string, value: nat, ttl: int, now: int) returns (ok: bool)
      modifies this
      ensures ok <==> !Present(old(keys), key, now)
      ensures keys == SetNX(old(keys), key, value, ttl, now) && SameBut(old(keys), keys, key)
      ensures ok ==> key in keys && keys[key] == Entry(value, if ttl == 0 then None else Some(now + ttl))
      ensures !ok ==> keys == old(keys)
    {
      ok := !(key in keys && (keys[key].expires == None || now < keys[key].expires.value));
      if ok {
        keys := keys[key := Entry(value, if ttl == 0 then None else Some(now + ttl))];
      }
    }

    method ReleaseLock(key: string, value: nat, now: int) returns (ok: bool)
      modifies this
      ensures ok <==> OwnedBy(old(keys), key, value, now)
      ensures keys == Del(old(keys), key, value, now) && SameBut(old(keys), keys, key)
      ensures if ok then key !in keys else keys == old(keys)
    {
      ok := key in keys && (keys[key].expires == None || now < keys[key].expires.value) && keys[key].value == value;
      if ok {
        keys := keys - {key};
      }
    }

    method ExtendLock(key: string, value: nat, ttl: int, now: int) returns (ok: bool)
      modifies this
      ensures ok <==> OwnedBy(old(keys), key, value, now)
      ensures keys == PExpire(old(keys), key, value, ttl, now) && SameBut(old(keys), keys, key)
      ensures ok && ttl > 0 ==> key in keys && keys[key] == Entry(value, Some(now + ttl))
      ensures ok && ttl <= 0 ==> key !in keys
      ensures !ok ==> keys == old(keys)
    {
      ok := key in keys && (keys[key].expires == None || now < keys[key].expires.value) && keys[key].value == value;
      if ok {
        keys := if ttl <= 0 then keys - {key} else keys[key := Entry(value, Some(now + ttl))];
      }
    }
  }

  // ---------- The clients ----------

  datatype Pc =
    | Started     // the context exists, no answer from TryLock yet
    | Holding     // TryLock said yes
    | Releasing   // past the critical section; the release script may still be on its way
    | Out         // refused, failed, or finished

  // A run's number is its token.
  datatype Task = Task(job: int, started: int, pc: Pc)

  datatype Sys = Sys(ttl: int, timeout: int, now: int, keys: map<string, Entry>, tasks: map<nat, Task>)

  datatype Event =
    | Wait(d: nat)
    | Begin(r: nat, job: int)
    | Lock(r: nat)
    | LockUnanswered(r: nat)      // the server sets the key, the client sees an error
    | Finish(r: nat)
    | Release(r: nat)             // the script runs, whenever that is
    | Extend(r: nat, ttl: int)

  predicate Enabled(s: Sys, e: Event) {
    match e
    case Wait(_) => true
    case Begin(r, _) => r !in s.tasks
    case Lock(r) => r in s.tasks && s.tasks[r].pc == Started
    case LockUnanswered(r) => r in s.tasks && s.tasks[r].pc == Started
    case Finish(r) => r in s.tasks && s.tasks[r].pc == Holding
    case Release(r) => r in s.tasks && s.tasks[r].pc == Releasing
    case Extend(r, _) => r in s.tasks
  }

  function Goto(s: Sys, r: nat, pc: Pc): Sys
    requires r in s.tasks
  {
    s.(tasks := s.tasks[r := s.tasks[r].(pc := pc)])
  }

  function Next(s: Sys, e: Event): Sys
    requires Enabled(s, e)
  {
    match e
    case Wait(d) => s.(now := s.now + d)
    case Begin(r, job) => s.(tasks := s.tasks[r := Task(job, s.now, Started)])
    case Lock(r) =>
      var key := LockKey(s.tasks[r].job);
      Goto(s, r, if Present(s.keys, key, s.now) then Out else Holding).(keys := SetNX(s.keys, key, r, s.ttl, s.now))
    case LockUnanswered(r) =>
      Goto(s, r, Out).(keys := SetNX(s.keys, LockKey(s.tasks[r].job), r, s.ttl, s.now))
    case Finish(r) => Goto(s, r, Releasing)
    case Release(r) => Goto(s, r, Out).(keys := Del(s.keys, LockKey(s.tasks[r].job), r, s.now))
    case Extend(r, ttl) => s.(keys := PExpire(s.keys, LockKey(s.tasks[r].job), r, ttl, s.now))
  }

  ghost predicate ValidRun(s: Sys, es: seq<Event>)
    decreases |es|
  {
    es == [] || (Enabled(s, es[0]) && ValidRun(Next(s, es[0]), es[1..]))
  }

  ghost function Run(s: Sys, es: seq<Event>): Sys
    requires ValidRun(s, es)
    decreases |es|
  {
    if es == [] then s else Run(Next(s, es[0]), es[1..])
  }

  function Initial(ttl: int, timeout: int): Sys {
    Sys(ttl, timeout, 0, map[], map[])
  }

  /** Between a successful TryLock and the earlier of the release and the context's deadline. */
  predicate InSection(s: Sys, r: nat) {
    r in s.tasks && s.tasks[r].pc == Holding && s.now < s.tasks[r].started + s.timeout
  }

  // A run in its section holds its job's lock, at least until its deadline.
  ghost predicate HoldsLock(s: Sys, r: nat)
    requires r in s.tasks
  {
    var key := LockKey(s.tasks[r].job);
    && OwnedBy(s.keys, key, r, s.now)
    && (s.keys[key].expires.Some? ==> s.tasks[r].started + s.timeout <= s.keys[key].expires.value)
  }

  ghost predicate Safe(s: Sys) {
    && (forall r :: InSection(s, r) ==> HoldsLock(s, r))
    && (forall r :: r in s.tasks ==> s.tasks[r].started <= s.now)
    && (forall key :: key in s.keys ==> s.keys[key].value in s.tasks && s.tasks[s.keys[key].value].pc != Started)
  }

  // handleTask never extends; others may, by no less than the timeout.
  predicate LongEnough(s: Sys, e: Event) {
    e.Extend? ==> e.ttl >= s.timeout
  }

  // The lock lives at least as long as the context, or for ever.
  predicate LongLived(ttl: int, timeout: int) {
    ttl == 0 || ttl >= timeout
  }

  lemma NextSafe(s: Sys, e: Event)
    requires Safe(s) && Enabled(s, e) && LongEnough(s, e) && LongLived(s.ttl, s.timeout)
    ensures Safe(Next(s, e))
  {
    var s' := Next(s, e);
    forall q | InSection(s', q) ensures HoldsLock(s', q) {
      SectionStays(s, e, q);
    }
  }

  lemma SectionStays(s: Sys, e: Event, q: nat)
    requires Safe(s) && Enabled(s, e) && LongEnough(s, e) && LongLived(s.ttl, s.timeout) && InSection(Next(s, e), q)
    ensures HoldsLock(Next(s, e), q)
  {
    match e
    case Wait(_) => assert InSection(s, q);
    case Begin(_, _) => assert InSection(s, q);
    case Lock(r) =>
      if q != r {
        assert InSection(s, q);
      }
    case LockUnanswered(r) => assert InSection(s, q);
    case Finish(_) => assert InSection(s, q);
    case Release(r) => assert InSection(s, q);
    case Extend(r, _) => assert InSection(s, q);
  }

  ghost predicate AllLongEnough(s: Sys, es: seq<Event>) {
    forall i :: 0 <= i < |es| ==> LongEnough(s, es[i])
  }

  lemma {:induction false} RunSafe(s: Sys, es: seq<Event>)
    requires Safe(s) && LongLived(s.ttl, s.timeout) && ValidRun(s, es) && AllLongEnough(s, es)
    ensures Safe(Run(s, es))
    decreases |es|
  {
    if es != [] {
      NextSafe(s, es[0]);
      assert forall i :: 0 <= i < |es[1..]| ==> es[1..][i] == es[i + 1];
      RunSafe(Next(s, es[0]), es[1..]);
    }
  }

  /** Mutual exclusion: with a lock that lives at least as long as the context (both are 30 s) or for ever, two runs for
      the same job are never both in their sections. */
  lemma OneHolder(ttl: int, timeout: int, es: seq<Event>, r: nat, q: nat)
    requires LongLived(ttl, timeout) && ValidRun(Initial(ttl, timeout), es) && AllLongEnough(Initial(ttl, timeout), es)
    requires var s := Run(Initial(ttl, timeout), es);
             InSection(s, r) && InSection(s, q) && s.tasks[r].job == s.tasks[q].job
    ensures r == q
  {
    RunSafe(Initial(ttl, timeout), es);
    var s := Run(Initial(ttl, timeout), es);
    assert HoldsLock(s, r) && HoldsLock(s, q);
  }

  lemma {:induction false} RunSnoc(s: Sys, es: seq<Event>, e: Event)
    requires ValidRun(s, es) && Enabled(Run(s, es), e)
    ensures ValidRun(s, es + [e]) && Run(s, es + [e]) == Next(Run(s, es), e)
    decreases |es|
  {
    if es == [] {
      assert ValidRun(Next(s, e), []) && ([e])[1..] == [] && [] + [e] == [e];
    } else {
      RunSnoc(Next(s, es[0]), es[1..], e);
      assert (es + [e])[1..] == es[1..] + [e];
    }
  }

  /** The TTL must not be shorter: with any positive one that is, two runs for one job get into their sections
      together. */
  lemma ShortTtlBreaks(ttl: int, timeout: int) returns (es: seq<Event>)
    requires 0 < ttl < timeout
    ensures ValidRun(Initial(ttl, timeout), es) && AllLongEnough(Initial(ttl, timeout), es)
    ensures var s := Run(Initial(ttl, timeout), es);
            InSection(s, 0) && InSection(s, 1) && s.tasks[0].job == s.tasks[1].job
  {
    var s := Initial(ttl, timeout);
    es := [Begin(0, 1)];
    assert ValidRun(Next(s, es[0]), []);
    RunSnoc(s, es, Begin(1, 1));
    es := es + [Begin(1, 1)];
    RunSnoc(s, es, Lock(0));
    es := es + [Lock(0)];
    RunSnoc(s, es, Wait(ttl));
    es := es + [Wait(ttl)];
    RunSnoc(s, es, Lock(1));
    es := es + [Lock(1)];
  }

  // No run from the start has two holders of one job's lock in their sections.
  ghost predicate Excludes(ttl: int, timeout: int) {
    forall es, r, q ::
      (ValidRun(Initial(ttl, timeout), es) && AllLongEnough(Initial(ttl, timeout), es)
       && BothIn(Run(Initial(ttl, timeout), es), r, q)) ==> r == q
  }

  predicate BothIn(s: Sys, r: nat, q: nat) {
    InSection(s, r) && InSection(s, q) && s.tasks[r].job == s.tasks[q].job
  }

  /** So the lock excludes, in all runs, if and only if its TTL is 0 or not shorter than the context's timeout. */
  lemma ExcludesExactly(ttl: int, timeout: int)
    requires ttl >= 0
    ensures Excludes(ttl, timeout) <==> LongLived(ttl, timeout)
  {
    if LongLived(ttl, timeout) {
      forall es, r, q | ValidRun(Initial(ttl, timeout), es) && AllLongEnough(Initial(ttl, timeout), es)
        && BothIn(Run(Initial(ttl, timeout), es), r, q)
        ensures r == q
      {
        OneHolder(ttl, timeout, es, r, q);
      }
    } else {
      var es := ShortTtlBreaks(ttl, timeout);
      assert BothIn(Run(Initial(ttl, timeout), es), 0, 1);
    }
  }

  // It has had its answer from TryLock, and the lock of its job is not its own (any more).
  predicate Stale(s: Sys, r: nat) {
    && r in s.tasks && s.tasks[r].pc != Started
    && !OwnedBy(s.keys, LockKey(s.tasks[r].job), r, s.now)
  }

  lemma StaysStale(s: Sys, e: Event, r: nat)
    requires Stale(s, r) && Enabled(s, e)
    ensures Stale(Next(s, e), r)
  {
    match e
    case Lock(_) =>
    case LockUnanswered(_) =>
    case Release(_) =>
    case Extend(_, _) =>
    case _ =>
  }

  // Something this run does.
  predicate By(e: Event, r: nat) {
    e == Lock(r) || e == LockUnanswered(r) || e == Finish(r) || e == Release(r) || (e.Extend? && e.r == r)
  }

  /** A run that has lost its job's lock never has it again, and whatever it still sends, however late and whoever
      holds the lock by then, changes no key. */
  lemma {:induction false} StaleTokenIsHarmless(s: Sys, es: seq<Event>, r: nat, e: Event)
    requires Stale(s, r) && ValidRun(s, es) && Enabled(Run(s, es), e) && By(e, r)
    ensures Stale(Run(s, es), r) && Next(Run(s, es), e).keys == Run(s, es).keys
    decreases |es|
  {
    if es != [] {
      StaysStale(s, es[0], r);
      StaleTokenIsHarmless(Next(s, es[0]), es[1..], r, e);
    }
  }

  /** A lock changes hands only by its own owner or by time: over every run in which the owner neither releases nor
      extends it, its entry is as it was until it expires. */
  lemma {:induction false} LockBelongsToOwner(s: Sys, es: seq<Event>, r: nat)
    requires ValidRun(s, es) && r in s.tasks && OwnedBy(s.keys, LockKey(s.tasks[r].job), r, s.now)
    requires forall i :: 0 <= i < |es| ==> es[i] != Release(r) && !(es[i].Extend? && es[i].r == r)
    ensures var u, key := Run(s, es), LockKey(s.tasks[r].job);
            Lasts(s.keys[key], u.now) ==> key in u.keys && u.keys[key] == s.keys[key]
    decreases |es|
  {
    if es != [] {
      var s', key := Next(s, es[0]), LockKey(s.tasks[r].job);
      TimePasses(s', es[1..]);
      if Lasts(s.keys[key], s'.now) {
        OwnerStays(s, es[0], r);
        assert forall i :: 0 <= i < |es[1..]| ==> es[1..][i] == es[i + 1];
        LockBelongsToOwner(s', es[1..], r);
      }
    }
  }

  lemma OwnerStays(s: Sys, e: Event, r: nat)
    requires Enabled(s, e) && r in s.tasks && OwnedBy(s.keys, LockKey(s.tasks[r].job), r, s.now)
    requires e != Release(r) && !(e.Extend? && e.r == r)
    ensures var s', key := Next(s, e), LockKey(s.tasks[r].job);
            r in s'.tasks && s'.tasks[r].job == s.tasks[r].job && key in s'.keys && s'.keys[key] == s.keys[key]
  {
    match e
    case Lock(_) =>
    case LockUnanswered(_) =>
    case Release(_) =>
    case Extend(_, _) =>
    case _ =>
  }

  // ---------- Getting the lock ----------

  // Nobody has the lock of this job.
  predicate Free(s: Sys, job: int) {
    !Present(s.keys, LockKey(job), s.now)
  }

  /** TryLock is granted exactly if nobody has the job's lock, and then it is the caller's, for the TTL. */
  lemma GrantedExactlyIfFree(s: Sys, q: nat)
    requires Enabled(s, Lock(q))
    ensures Next(s, Lock(q)).tasks[q].pc == Holding <==> Free(s, s.tasks[q].job)
    ensures var t, key := Next(s, Lock(q)), LockKey(s.tasks[q].job);
            Free(s, s.tasks[q].job) ==> key in t.keys && t.keys[key] == Entry(q, Expiry(s.ttl, s.now))
  {
  }

  /** A release frees the lock, at once and of this job only. */
  lemma ReleaseFrees(s: Sys, r: nat)
    requires Enabled(s, Release(r)) && OwnedBy(s.keys, LockKey(s.tasks[r].job), r, s.now)
    ensures var t := Next(s, Release(r));
            Free(t, s.tasks[r].job) && SameBut(s.keys, t.keys, LockKey(s.tasks[r].job))
  {
  }

  // Somebody asks for the lock of this job.
  predicate AsksFor(s: Sys, e: Event, job: int) {
    (e.Lock? || e.LockUnanswered?) && e.r in s.tasks && s.tasks[e.r].job == job
  }

  ghost predicate NobodyAsks(s: Sys, es: seq<Event>, job: int)
    decreases |es|
  {
    es != [] ==> Enabled(s, es[0]) && !AsksFor(s, es[0], job) && NobodyAsks(Next(s, es[0]), es[1..], job)
  }

  lemma StaysFree(s: Sys, e: Event, job: int)
    requires Free(s, job) && Enabled(s, e) && !AsksFor(s, e, job)
    ensures Free(Next(s, e), job)
  {
    match e
    case Lock(r) => OtherKey(s.tasks[r].job, job);
    case LockUnanswered(r) => OtherKey(s.tasks[r].job, job);
    case Release(_) =>
    case Extend(r, _) =>
    case _ =>
  }

  lemma OtherKey(i: int, j: int)
    requires i != j
    ensures LockKey(i) != LockKey(j)
  {
    if LockKey(i) == LockKey(j) {
      LockKeyInjective(i, j);
    }
  }

  /** A lock that is free, because it was released or has expired, stays free until somebody asks for it, and the first
      run of the job to do so gets it. */
  lemma {:induction false} FreeUntilAsked(s: Sys, es: seq<Event>, job: int, q: nat)
    requires Free(s, job) && ValidRun(s, es) && NobodyAsks(s, es, job)
    ensures var u := Run(s, es);
            && Free(u, job)
            && (Enabled(u, Lock(q)) && u.tasks[q].job == job ==>
                  var t := Next(u, Lock(q));
                  t.tasks[q].pc == Holding && LockKey(job) in t.keys && t.keys[LockKey(job)].value == q)
    decreases |es|
  {
    if es != [] {
      StaysFree(s, es[0], job);
      FreeUntilAsked(Next(s, es[0]), es[1..], job, q);
    }
  }

  /** An owner that extends the lock has it for that long, over every run in which it neither releases nor extends it
      again. */
  lemma ExtendedLives(s: Sys, r: nat, ttl: int, es: seq<Event>)
    requires r in s.tasks && OwnedBy(s.keys, LockKey(s.tasks[r].job), r, s.now) && ttl > 0
    requires ValidRun(Next(s, Extend(r, ttl)), es)
    requires forall i :: 0 <= i < |es| ==> es[i] != Release(r) && !(es[i].Extend? && es[i].r == r)
    ensures var u, key := Run(Next(s, Extend(r, ttl)), es), LockKey(s.tasks[r].job);
            u.now < s.now + ttl ==> OwnedBy(u.keys, key, r, u.now)
  {
    LockBelongsToOwner(Next(s, Extend(r, ttl)), es, r);
  }

  lemma {:induction false} TimePasses(s: Sys, es: seq<Event>)
    requires ValidRun(s, es)
    ensures s.now <= Run(s, es).now
    decreases |es|
  {
    if es != [] {
      TimePasses(Next(s, es[0]), es[1..]);
    }
  }
}
