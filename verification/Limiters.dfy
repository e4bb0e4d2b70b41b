/** The combined limiter (token bucket, then quota) and the registry that checks a job's limiter before its
    app's.  Times are in nanoseconds. */
module Limiters {
  import opened Basics
  import opened IdLists
  import opened TokenBuckets
  import FW = FixedWindows

  function Seconds(ns: int): real {
    ns as real / 1_000_000_000.0
  }

  // A bucket with its clock, which tells the time in tokens.
  datatype Paced = Paced(clock: int -> real, meter: Meter)

  // The clock of a bucket of this rate.
  function RateClock(rate: real): int -> real {
    ns => rate * Seconds(ns)
  }

  ghost predicate Ticks(clock: int -> real) {
    forall a, b :: a <= b ==> clock(a) <= clock(b)
  }

  lemma RateClockTicks(rate: real, a: int, b: int)
    requires rate >= 0.0
    ensures Ticks(RateClock(rate))
    ensures RateClock(rate)(b) - RateClock(rate)(a) == rate * (Seconds(b) - Seconds(a))
  {
    var clock := RateClock(rate);
    forall x, y | x <= y ensures clock(x) <= clock(y) {
      Grows(rate, Seconds(x), Seconds(y));
    }
    Spread(rate, Seconds(a), Seconds(b));
  }

  datatype Lim = Lim(bucket: Option<Paced>, quota: Option<FW.Quota>, allowed: nat, rejected: nat)

  // The capacity and what this rate earns in the time between.
  ghost predicate WithinRate(n: nat, l: Lim, rate: real, from: int, to: int)
    requires l.bucket.Some?
  {
    n as real <= l.bucket.value.meter.cap + rate * (Seconds(to) - Seconds(from))
  }

  lemma Earns(rate: real, from: int, to: int, n: nat, l: Lim)
    requires l.bucket.Some?
    requires n as real <= l.bucket.value.meter.cap + (RateClock(rate)(to) - RateClock(rate)(from))
    ensures WithinRate(n, l, rate, from, to)
  {
    Spread(rate, Seconds(from), Seconds(to));
  }

  // Sane, with a bucket of this rate.
  ghost predicate Rated(l: Lim, rate: real) {
    && l.bucket.Some? && rate >= 0.0 && l.bucket.value.clock == RateClock(rate)
    && 0.0 <= l.bucket.value.meter.level <= l.bucket.value.meter.cap
    && (l.quota.Some? ==> FW.Sane(l.quota.value))
  }

  lemma RatedIsSane(l: Lim, rate: real)
    requires Rated(l, rate)
    ensures Sane(l)
  {
    RateClockTicks(rate, 0, 0);
  }

  ghost predicate Sane(l: Lim) {
    && (l.bucket.Some? ==> Ticks(l.bucket.value.clock) && 0.0 <= l.bucket.value.meter.level <= l.bucket.value.meter.cap)
    && (l.quota.Some? ==> FW.Sane(l.quota.value))
  }

  function OneCall(clock: int -> real, now: int): Call {
    Call(clock(now), 1.0)
  }

  predicate BucketPasses(l: Lim, now: int) {
    l.bucket.Some? ==> Level(l.bucket.value.meter, l.bucket.value.clock(now)) >= 1.0
  }

  predicate QuotaPasses(l: Lim, now: int)
    requires l.quota.Some? ==> l.quota.value.window > 0
  {
    l.quota.Some? ==> FW.Allows(l.quota.value, now)
  }

  predicate Passes(l: Lim, now: int)
    requires l.quota.Some? ==> l.quota.value.window > 0
  {
    BucketPasses(l, now) && QuotaPasses(l, now)
  }

  function BucketCharged(l: Lim, now: int): Option<Paced> {
    if l.bucket.None? then None
    else Some(l.bucket.value.(meter := Step(l.bucket.value.meter, OneCall(l.bucket.value.clock, now))))
  }

  /** Allow, on values: a call the bucket refuses does not reach the quota; one the quota refuses has taken its
      token. */
  function Asked(l: Lim, now: int): (r: Lim)
    requires l.quota.Some? ==> l.quota.value.window > 0
    ensures r.quota.Some? <==> l.quota.Some?
    ensures l.quota.Some? ==> r.quota.value.window == l.quota.value.window && r.quota.value.limit == l.quota.value.limit
  {
    var quota := if l.quota.Some? && BucketPasses(l, now) then Some(FW.Charge(l.quota.value, now)) else l.quota;
    if Passes(l, now) then Lim(BucketCharged(l, now), quota, l.allowed + 1, l.rejected)
    else Lim(BucketCharged(l, now), quota, l.allowed, l.rejected + 1)
  }

  function After(l: Lim, times: seq<int>): (r: Lim)
    requires l.quota.Some? ==> l.quota.value.window > 0
    ensures r.quota.Some? <==> l.quota.Some?
    ensures l.quota.Some? ==> r.quota.value.window == l.quota.value.window && r.quota.value.limit == l.quota.value.limit
    decreases |times|
  {
    if times == [] then l else Asked(After(l, times[..|times| - 1]), times[|times| - 1])
  }

  // The calls let through from position i on.
  function Passed(l: Lim, times: seq<int>, i: nat): nat
    requires l.quota.Some? ==> l.quota.value.window > 0
    decreases |times|
  {
    if |times| <= i then 0
    else
      var n := |times| - 1;
      Passed(l, times[..n], i) + if Passes(After(l, times[..n]), times[n]) then 1 else 0
  }

  /** Every call is counted once: allowed plus rejected is the number of calls, and allowed those let through. */
  lemma {:induction false} EveryCallCounted(l: Lim, times: seq<int>)
    requires l.quota.Some? ==> l.quota.value.window > 0
    ensures var a := After(l, times);
            && a.allowed + a.rejected == l.allowed + l.rejected + |times|
            && a.allowed == l.allowed + Passed(l, times, 0)
    decreases |times|
  {
    if times != [] {
      EveryCallCounted(l, times[..|times| - 1]);
    }
  }

  // The calls from position i to just before j that were let through, in a run of all of them.
  function PassedBetween(l: Lim, times: seq<int>, i: nat, j: nat): nat
    requires (l.quota.Some? ==> l.quota.value.window > 0) && j <= |times|
  {
    Passed(l, times[..j], i)
  }

  // ---------- What every call keeps ----------

  // Neither layer has seen a time after this one.
  ghost predicate NotAhead(l: Lim, now: int) {
    && (l.bucket.Some? ==> l.bucket.value.meter.last <= l.bucket.value.clock(now))
    && (l.quota.Some? ==> l.quota.value.window > 0 && l.quota.value.winKey <= FW.Key(l.quota.value, now))
  }

  lemma NotAheadLater(l: Lim, now: int, later: int)
    requires Sane(l) && NotAhead(l, now) && now <= later
    ensures NotAhead(l, later)
  {
    if l.quota.Some? {
      FW.QuotientGrows(l.quota.value.window, now, later);
    }
  }

  lemma AskedStaysSane(l: Lim, now: int)
    requires Sane(l) && NotAhead(l, now)
    ensures Sane(Asked(l, now)) && NotAhead(Asked(l, now), now)
  {
  }

  /** A limiter stays sane whatever it is asked at nondecreasing times, so what holds of a run from a sane limiter
      holds of every stretch of a run. */
  lemma {:induction false} StaysSane(l: Lim, times: seq<int>)
    requires Sane(l) && Rising(times) && (times != [] ==> NotAhead(l, times[0]))
    ensures Sane(After(l, times)) && (times != [] ==> NotAhead(After(l, times), times[|times| - 1]))
    decreases |times|
  {
    if times != [] {
      var n := |times| - 1;
      StaysSane(l, times[..n]);
      if n > 0 {
        NotAheadLater(After(l, times[..n]), times[n - 1], times[n]);
      }
      AskedStaysSane(After(l, times[..n]), times[n]);
    }
  }

  // The rest of a run is a run from where its beginning ends.
  lemma {:induction false} PassedSplit(l: Lim, times: seq<int>, i: nat)
    requires (l.quota.Some? ==> l.quota.value.window > 0) && i <= |times|
    ensures After(After(l, times[..i]), times[i..]) == After(l, times)
    ensures Passed(After(l, times[..i]), times[i..], 0) == Passed(l, times, i)
    decreases |times|
  {
    if i == |times| {
      assert times[..i] == times && times[i..] == [];
    } else {
      var pre, last := times[..|times| - 1], times[|times| - 1];
      assert times == pre + [last] && times[..i] == pre[..i] && times[i..] == pre[i..] + [last];
      PassedSplit(l, pre, i);
      RunStep(l, pre, last, i);
      RunStep(After(l, pre[..i]), pre[i..], last, 0);
    }
  }

  // ---------- The limiter against its bucket ----------

  function BucketCalls(clock: int -> real, times: seq<int>): (calls: seq<Call>)
    ensures |calls| == |times| && forall i :: 0 <= i < |times| ==> calls[i] == OneCall(clock, times[i])
  {
    seq(|times|, i requires 0 <= i < |times| => OneCall(clock, times[i]))
  }

  lemma {:induction false} BucketFollows(l: Lim, times: seq<int>, i: nat)
    requires l.bucket.Some? && (l.quota.Some? ==> l.quota.value.window > 0)
    ensures var calls := BucketCalls(l.bucket.value.clock, times);
            && After(l, times).bucket == Some(Paced(l.bucket.value.clock, Steps(l.bucket.value.meter, calls)))
            && Passed(l, times, i) as real <= Drawn(l.bucket.value.meter, calls, i)
    decreases |times|
  {
    if times != [] {
      var n := |times| - 1;
      BucketFollows(l, times[..n], i);
      assert BucketCalls(l.bucket.value.clock, times)[..n] == BucketCalls(l.bucket.value.clock, times[..n]);
    }
  }

  ghost predicate Rising(times: seq<int>) {
    forall i, k :: 0 <= i < k < |times| ==> times[i] <= times[k]
  }

  /** In any stretch of calls at nondecreasing times, a limiter with a bucket lets through at most the bucket's
      capacity plus what its clock gains between the first and the last. */
  lemma RateBound(l: Lim, times: seq<int>, i: nat, j: nat)
    requires Sane(l) && l.bucket.Some? && Rising(times) && i < j <= |times| && NotAhead(l, times[0])
    ensures var b := l.bucket.value;
            PassedBetween(l, times, i, j) as real <= b.meter.cap + (b.clock(times[j - 1]) - b.clock(times[i]))
  {
    var b := l.bucket.value;
    BucketFollows(l, times[..j], i);
    DrawnBound(b.meter, BucketCalls(b.clock, times[..j]), i);
  }

  /** The same in seconds: capacity + rate * (tj - ti). */
  lemma RateBoundInSeconds(l: Lim, rate: real, times: seq<int>, i: nat, j: nat)
    requires rate >= 0.0 && l.bucket.Some? && l.bucket.value.clock == RateClock(rate)
    requires Sane(l) && Rising(times) && i < j <= |times| && NotAhead(l, times[0])
    ensures PassedBetween(l, times, i, j) as real
         <= l.bucket.value.meter.cap + rate * (Seconds(times[j - 1]) - Seconds(times[i]))
  {
    RateBound(l, times, i, j);
    RateClockTicks(rate, times[i], times[j - 1]);
  }

  // ---------- The limiter against its quota ----------

  // The calls that get past the bucket.
  function QuotaTimes(l: Lim, times: seq<int>): seq<int>
    requires l.quota.Some? ==> l.quota.value.window > 0
    decreases |times|
  {
    if times == [] then []
    else
      var n := |times| - 1;
      QuotaTimes(l, times[..n]) + if BucketPasses(After(l, times[..n]), times[n]) then [times[n]] else []
  }

  lemma QuotaStep(q: FW.Quota, qs: seq<int>, now: int)
    requires q.window > 0
    ensures FW.After(q, qs + [now]) == FW.Charge(FW.After(q, qs), now)
    ensures FW.Passed(q, qs + [now], false, 0)
         == FW.Passed(q, qs, false, 0) + if FW.Allows(FW.After(q, qs), now) then 1 else 0
  {
    assert (qs + [now])[..|qs|] == qs;
  }

  lemma {:induction false} QuotaFollows(l: Lim, times: seq<int>)
    requires l.quota.Some? && l.quota.value.window > 0
    ensures var qs := QuotaTimes(l, times);
            && After(l, times).quota == Some(FW.After(l.quota.value, qs))
            && Passed(l, times, 0) == FW.Passed(l.quota.value, qs, false, 0)
            && (forall k :: 0 <= k < |qs| ==> qs[k] in times)
    decreases |times|
  {
    if times != [] {
      var n := |times| - 1;
      var before := QuotaTimes(l, times[..n]);
      QuotaFollows(l, times[..n]);
      if BucketPasses(After(l, times[..n]), times[n]) {
        QuotaStep(l.quota.value, before, times[n]);
      } else {
        assert before + [] == before;
      }
    }
  }

  lemma {:induction false} QuotaTimesRise(l: Lim, times: seq<int>)
    requires (l.quota.Some? ==> l.quota.value.window > 0) && Rising(times)
    ensures var qs := QuotaTimes(l, times);
            Rising(qs) && forall k :: 0 <= k < |qs| ==> times != [] && times[0] <= qs[k] <= times[|times| - 1]
    decreases |times|
  {
    if times != [] {
      QuotaTimesRise(l, times[..|times| - 1]);
    }
  }

  /** In any stretch of calls at nonnegative nondecreasing times within L of each other, a limiter with a quota lets
      through at most limit * (L / w + 2). */
  lemma QuotaBound(l: Lim, times: seq<int>, i: nat, j: nat, length: nat)
    requires Sane(l) && l.quota.Some? && Rising(times) && i < j <= |times| && NotAhead(l, times[0])
    requires 0 <= times[i] && times[j - 1] <= times[i] + length
    ensures PassedBetween(l, times, i, j) <= FW.Cap(l.quota.value) * (length / l.quota.value.window + 2)
  {
    var q, spans := l.quota.value, length / l.quota.value.window + 2;
    FW.SpanOfWindows(q.window, times[i], times[j - 1], length);
    QuotaWindows(l, times, i, j, spans);
    FW.CapsTimes(FW.Cap(q), spans);
  }

  lemma QuotaWindows(l: Lim, times: seq<int>, i: nat, j: nat, spans: nat)
    requires Sane(l) && l.quota.Some? && Rising(times) && i < j <= |times| && NotAhead(l, times[0])
    requires FW.Key(l.quota.value, times[j - 1]) - FW.Key(l.quota.value, times[i]) < spans
    ensures PassedBetween(l, times, i, j) <= FW.Caps(FW.Cap(l.quota.value), spans)
  {
    var m, rest := After(l, times[..i]), times[i..j];
    assert times[..j][..i] == times[..i] && times[..j][i..] == rest;
    PassedSplit(l, times[..j], i);
    MidRun(l, times, i);
    RestIsTimely(m, rest);
    QuotaSpans(m, rest, spans);
  }

  // Before call i, the limiter is sane and has seen no later time.
  lemma MidRun(l: Lim, times: seq<int>, i: nat)
    requires Sane(l) && Rising(times) && i < |times| && NotAhead(l, times[0])
    ensures Sane(After(l, times[..i])) && NotAhead(After(l, times[..i]), times[i])
  {
    StaysSane(l, times[..i]);
    if i > 0 {
      NotAheadLater(After(l, times[..i]), times[i - 1], times[i]);
    }
  }

  lemma RestIsTimely(l: Lim, times: seq<int>)
    requires Sane(l) && l.quota.Some? && times != [] && Rising(times) && NotAhead(l, times[0])
    ensures FW.Timely(l.quota.value, times)
  {
    forall k | 0 <= k < |times| ensures l.quota.value.winKey <= FW.Key(l.quota.value, times[k]) {
      NotAheadLater(l, times[0], times[k]);
    }
  }

  lemma QuotaSpans(l: Lim, times: seq<int>, spans: nat)
    requires Sane(l) && l.quota.Some? && times != [] && Rising(times) && FW.Timely(l.quota.value, times)
    requires FW.Key(l.quota.value, times[|times| - 1]) - FW.Key(l.quota.value, times[0]) < spans
    ensures Passed(l, times, 0) <= FW.Caps(FW.Cap(l.quota.value), spans)
  {
    var q, qs := l.quota.value, QuotaTimes(l, times);
    QuotaFollows(l, times);
    QuotaTimesRise(l, times);
    if qs != [] {
      forall k | 0 <= k < |qs| ensures q.winKey <= FW.Key(q, qs[k]) {
        var j :| 0 <= j < |times| && times[j] == qs[k];
      }
      var first, last := qs[0], qs[|qs| - 1];
      FW.QuotientGrows(q.window, times[0], first);
      FW.QuotientGrows(q.window, last, times[|times| - 1]);
      FW.SpansEnough(q, qs, FW.Key(q, first), FW.Key(q, last), spans);
    }
  }

  // ---------- The registry ----------

  function AppKey(appName: string): string {
    "app:" + appName
  }

  function JobKey(jobID: int): string {
    "job:" + FormatInt(jobID)
  }

  /** An app's key is never a job's key, and different apps and different jobs have different keys. */
  lemma KeysDiffer(a: string, b: string, i: int, j: int)
    ensures AppKey(a) != JobKey(i)
    ensures AppKey(a) == AppKey(b) ==> a == b
    ensures JobKey(i) == JobKey(j) ==> i == j
  {
    assert AppKey(a)[0] == 'a' && JobKey(i)[0] == 'j';
    assert AppKey(a)[4..] == a && AppKey(b)[4..] == b;
    assert JobKey(i)[4..] == FormatInt(i) && JobKey(j)[4..] == FormatInt(j);
    if JobKey(i) == JobKey(j) {
      FormatInjective(i, j);
    }
  }

  datatype Verdict = Allowed | JobLimited | AppLimited

  datatype Check = Check(app: string, job: int, now: int)

  type Registry = reg: map<string, Lim> | forall k :: k in reg ==> reg[k].quota.Some? ==> reg[k].quota.value.window > 0

  // Asking one limiter; a key that is not registered always passes.
  function Ask(reg: Registry, key: string, now: int): Registry {
    if key in reg then reg[key := Asked(reg[key], now)] else reg
  }

  predicate Yes(reg: Registry, key: string, now: int) {
    key in reg ==> Passes(reg[key], now)
  }

  function Checked(reg: Registry, c: Check): Registry {
    var asked := Ask(reg, JobKey(c.job), c.now);
    if Yes(reg, JobKey(c.job), c.now) then Ask(asked, AppKey(c.app), c.now) else asked
  }

  function Answer(reg: Registry, c: Check): Verdict {
    if !Yes(reg, JobKey(c.job), c.now) then JobLimited
    else if !Yes(Ask(reg, JobKey(c.job), c.now), AppKey(c.app), c.now) then AppLimited
    else Allowed
  }

  /** A refusal at the job's limiter leaves every app's limiter as it was. */
  lemma JobRefusalSparesApps(reg: Registry, c: Check, app: string)
    requires Answer(reg, c) == JobLimited && AppKey(app) in reg
    ensures AppKey(app) in Checked(reg, c) && Checked(reg, c)[AppKey(app)] == reg[AppKey(app)]
  {
    KeysDiffer(app, app, c.job, c.job);
  }

  // The registry after the first j checks.
  function AfterChecks(reg: Registry, checks: seq<Check>, j: nat): Registry
    requires j <= |checks|
  {
    if j == 0 then reg else Checked(AfterChecks(reg, checks, j - 1), checks[j - 1])
  }

  // The check is for this app and passes its job's limiter; it is for this app and passes both.
  predicate Reaches(reg: Registry, c: Check, app: string) {
    c.app == app && Yes(reg, JobKey(c.job), c.now)
  }

  predicate Admitted(reg: Registry, c: Check, app: string) {
    c.app == app && Answer(reg, c) == Allowed
  }

  // Which checks ask the app's limiter, and which are allowed for the app.
  function Asking(reg: Registry, checks: seq<Check>, app: string): (asking: seq<bool>)
    ensures |asking| == |checks|
  {
    seq(|checks|, k requires 0 <= k < |checks| => Reaches(AfterChecks(reg, checks, k), checks[k], app))
  }

  function Allowing(reg: Registry, checks: seq<Check>, app: string): (allowing: seq<bool>)
    ensures |allowing| == |checks|
  {
    seq(|checks|, k requires 0 <= k < |checks| => Admitted(AfterChecks(reg, checks, k), checks[k], app))
  }

  // The times of the marked ones among the first j checks.
  function Times(checks: seq<Check>, marks: seq<bool>, j: nat): seq<int>
    requires |marks| == |checks| && j <= |checks|
  {
    if j == 0 then [] else Times(checks, marks, j - 1) + if marks[j - 1] then [checks[j - 1].now] else []
  }

  function Count(marks: seq<bool>, i: nat, j: nat): nat
    requires i <= j <= |marks|
  {
    if i == j then 0 else Count(marks, i, j - 1) + if marks[j - 1] then 1 else 0
  }

  // When the first j checks asked the app's limiter.
  function AppTimes(reg: Registry, checks: seq<Check>, app: string, j: nat): seq<int>
    requires j <= |checks|
  {
    Times(checks, Asking(reg, checks, app), j)
  }

  // How many of the checks from i to just before j were allowed for the app.
  function Admissions(reg: Registry, checks: seq<Check>, app: string, i: nat, j: nat): nat
    requires i <= j <= |checks|
  {
    Count(Allowing(reg, checks, app), i, j)
  }

  lemma CheckStep(reg: Registry, c: Check, app: string)
    requires AppKey(app) in reg
    ensures var l := reg[AppKey(app)];
            && AppKey(app) in Checked(reg, c)
            && Checked(reg, c)[AppKey(app)] == (if Reaches(reg, c, app) then Asked(l, c.now) else l)
            && (Admitted(reg, c, app) <==> Reaches(reg, c, app) && Passes(l, c.now))
  {
    KeysDiffer(app, c.app, c.job, c.job);
  }

  lemma RunStep(l: Lim, times: seq<int>, now: int, i: nat)
    requires (l.quota.Some? ==> l.quota.value.window > 0) && i <= |times|
    ensures After(l, times + [now]) == Asked(After(l, times), now)
    ensures Passed(l, times + [now], i) == Passed(l, times, i) + if Passes(After(l, times), now) then 1 else 0
  {
    assert (times + [now])[..|times|] == times;
  }

  lemma FollowsOn(l: Lim, checks: seq<Check>, asking: seq<bool>, j: nat, before: Lim, after: Lim)
    requires (l.quota.Some? ==> l.quota.value.window > 0) && |asking| == |checks| && j < |checks|
    requires before == After(l, Times(checks, asking, j))
    requires after == if asking[j] then Asked(before, checks[j].now) else before
    ensures after == After(l, Times(checks, asking, j + 1))
  {
    var times := Times(checks, asking, j);
    if asking[j] {
      RunStep(l, times, checks[j].now, 0);
    } else {
      assert times + [] == times;
    }
  }

  ghost predicate MarkAt(reg: Registry, checks: seq<Check>, app: string, marks: seq<bool>, k: nat)
    requires |marks| == |checks| && k < |checks|
  {
    marks[k] <==> Reaches(AfterChecks(reg, checks, k), checks[k], app)
  }

  // The app's limiter has followed After on the times it was asked at.
  ghost predicate Followed(reg: Registry, checks: seq<Check>, app: string, marks: seq<bool>, j: nat)
    requires AppKey(app) in reg && |marks| == |checks| && j <= |checks|
  {
    var after := AfterChecks(reg, checks, j);
    AppKey(app) in after && after[AppKey(app)] == After(reg[AppKey(app)], Times(checks, marks, j))
  }

  lemma FollowedNext(reg: Registry, checks: seq<Check>, app: string, marks: seq<bool>, j: nat)
    requires AppKey(app) in reg && |marks| == |checks| && j < |checks|
    requires Followed(reg, checks, app, marks, j) && MarkAt(reg, checks, app, marks, j)
    ensures Followed(reg, checks, app, marks, j + 1)
  {
    var r := AfterChecks(reg, checks, j);
    CheckStep(r, checks[j], app);
    var after := Checked(r, checks[j])[AppKey(app)];
    FollowsOn(reg[AppKey(app)], checks, marks, j, r[AppKey(app)], after);
  }

  lemma FollowedAtStart(reg: Registry, checks: seq<Check>, app: string, marks: seq<bool>)
    requires AppKey(app) in reg && |marks| == |checks|
    ensures Followed(reg, checks, app, marks, 0)
  {
  }

  lemma AppFollows(reg: Registry, checks: seq<Check>, app: string, marks: seq<bool>, j: nat)
    requires AppKey(app) in reg && j <= |checks| == |marks|
    requires forall k :: 0 <= k < j ==> MarkAt(reg, checks, app, marks, k)
    ensures Followed(reg, checks, app, marks, j)
  {
    FollowedAtStart(reg, checks, app, marks);
    for i := 0 to j
      invariant Followed(reg, checks, app, marks, i)
    {
      FollowedNext(reg, checks, app, marks, i);
    }
  }

  // A check is allowed if it asks the limiter and the limiter, after the calls before, lets it through.
  ghost predicate Agrees(l: Lim, checks: seq<Check>, asking: seq<bool>, allowing: seq<bool>, k: nat)
    requires (l.quota.Some? ==> l.quota.value.window > 0) && |asking| == |allowing| == |checks| && k < |checks|
  {
    allowing[k] <==> asking[k] && Passes(After(l, Times(checks, asking, k)), checks[k].now)
  }

  lemma ChecksAgree(reg: Registry, checks: seq<Check>, app: string, marks: seq<bool>, k: nat)
    requires AppKey(app) in reg && k < |checks| == |marks|
    requires forall i :: 0 <= i <= k ==> MarkAt(reg, checks, app, marks, i)
    ensures Admitted(AfterChecks(reg, checks, k), checks[k], app) <==>
            marks[k] && Passes(After(reg[AppKey(app)], Times(checks, marks, k)), checks[k].now)
  {
    AppFollows(reg, checks, app, marks, k);
    CheckStep(AfterChecks(reg, checks, k), checks[k], app);
    assert MarkAt(reg, checks, app, marks, k);
  }

  lemma {:induction false} CountIsPassed(l: Lim, checks: seq<Check>, asking: seq<bool>, allowing: seq<bool>,
                                         i: nat, j: nat)
    requires (l.quota.Some? ==> l.quota.value.window > 0) && |asking| == |allowing| == |checks| && i <= j <= |checks|
    requires forall k :: 0 <= k < j ==> Agrees(l, checks, asking, allowing, k)
    ensures var first, times := |Times(checks, asking, i)|, Times(checks, asking, j);
            first <= |times| && Count(allowing, i, j) == Passed(l, times, first)
    decreases j
  {
    if i < j {
      var times := Times(checks, asking, j - 1);
      CountIsPassed(l, checks, asking, allowing, i, j - 1);
      assert Agrees(l, checks, asking, allowing, j - 1);
      if asking[j - 1] {
        RunStep(l, times, checks[j - 1].now, |Times(checks, asking, i)|);
      } else {
        assert times + [] == times;
      }
    }
  }

  /** Across any mix of apps and jobs, an app's limiter sees one run of calls, those that passed their job's
      limiter, and in every stretch of checks the app's admissions are exactly the calls it let through. */
  lemma AppSeesOneRun(reg: Registry, checks: seq<Check>, app: string, i: nat, j: nat)
    requires AppKey(app) in reg && i <= j <= |checks|
    ensures var times, l, after := AppTimes(reg, checks, app, j), reg[AppKey(app)], AfterChecks(reg, checks, j);
            && AppKey(app) in after && after[AppKey(app)] == After(l, times)
            && |AppTimes(reg, checks, app, i)| <= |times|
            && Admissions(reg, checks, app, i, j) == Passed(l, times, |AppTimes(reg, checks, app, i)|)
  {
    var l, asking, allowing := reg[AppKey(app)], Asking(reg, checks, app), Allowing(reg, checks, app);
    forall k | 0 <= k < |checks| ensures MarkAt(reg, checks, app, asking, k) {
    }
    AppFollows(reg, checks, app, asking, j);
    forall k | 0 <= k < j ensures Agrees(l, checks, asking, allowing, k) {
      ChecksAgree(reg, checks, app, asking, k);
    }
    CountIsPassed(l, checks, asking, allowing, i, j);
  }

  ghost predicate ChecksRise(checks: seq<Check>) {
    forall i, k :: 0 <= i < k < |checks| ==> checks[i].now <= checks[k].now
  }

  // Times of checks rise with them.
  lemma {:induction false} TimesRise(checks: seq<Check>, marks: seq<bool>, j: nat)
    requires |marks| == |checks| && ChecksRise(checks) && j <= |checks|
    ensures var times := Times(checks, marks, j);
            Rising(times) && forall k :: 0 <= k < |times| ==> 0 < j && checks[0].now <= times[k] <= checks[j - 1].now
    decreases j
  {
    if j > 0 {
      TimesRise(checks, marks, j - 1);
    }
  }

  // And those from check i on are not before it.
  lemma {:induction false} TimesFrom(checks: seq<Check>, marks: seq<bool>, i: nat, j: nat)
    requires |marks| == |checks| && ChecksRise(checks) && i <= j <= |checks|
    ensures var first, times := |Times(checks, marks, i)|, Times(checks, marks, j);
            first <= |times| && forall k :: first <= k < |times| ==> i < j && checks[i].now <= times[k]
    decreases j
  {
    if i < j {
      TimesFrom(checks, marks, i, j - 1);
    }
  }

  ghost predicate AllSane(reg: Registry, now: int) {
    forall k :: k in reg ==> Sane(reg[k]) && NotAhead(reg[k], now)
  }

  lemma AllSaneLater(reg: Registry, now: int, later: int)
    requires AllSane(reg, now) && now <= later
    ensures AllSane(reg, later)
  {
    forall k | k in reg ensures NotAhead(reg[k], later) {
      NotAheadLater(reg[k], now, later);
    }
  }

  lemma CheckStaysSane(reg: Registry, c: Check, last: int)
    requires AllSane(reg, last) && last <= c.now
    ensures AllSane(Checked(reg, c), c.now)
  {
    AllSaneLater(reg, last, c.now);
    AskStaysSane(reg, JobKey(c.job), c.now);
    AskStaysSane(Ask(reg, JobKey(c.job), c.now), AppKey(c.app), c.now);
  }

  // The time of the last of the first j checks.
  function LastTime(checks: seq<Check>, j: nat, start: int): int
    requires j <= |checks|
  {
    if j == 0 then start else checks[j - 1].now
  }

  ghost predicate SaneAfter(reg: Registry, checks: seq<Check>, j: nat, start: int)
    requires j <= |checks|
  {
    AllSane(AfterChecks(reg, checks, j), LastTime(checks, j, start))
  }

  lemma SaneAtStart(reg: Registry, checks: seq<Check>, start: int)
    requires AllSane(reg, start)
    ensures SaneAfter(reg, checks, 0, start)
  {
  }

  lemma SaneNext(reg: Registry, checks: seq<Check>, j: nat, start: int)
    requires j < |checks| && SaneAfter(reg, checks, j, start) && LastTime(checks, j, start) <= checks[j].now
    ensures SaneAfter(reg, checks, j + 1, start)
  {
    CheckStaysSane(AfterChecks(reg, checks, j), checks[j], LastTime(checks, j, start));
  }

  /** Checks at nondecreasing times keep every limiter of the registry sane. */
  lemma ChecksStaySane(reg: Registry, checks: seq<Check>, j: nat, start: int)
    requires j <= |checks| && AllSane(reg, start) && ChecksRise(checks) && (checks != [] ==> start <= checks[0].now)
    ensures SaneAfter(reg, checks, j, start)
  {
    SaneAtStart(reg, checks, start);
    for i := 0 to j
      invariant SaneAfter(reg, checks, i, start)
    {
      SaneNext(reg, checks, i, start);
    }
  }

  lemma AskStaysSane(reg: Registry, key: string, now: int)
    requires AllSane(reg, now)
    ensures AllSane(Ask(reg, key, now), now)
  {
    if key in reg {
      AskedStaysSane(reg[key], now);
    }
  }

  /** Across any mix of jobs, in any stretch of checks an app's admissions obey its own bucket... */
  lemma AppRateBound(reg: Registry, checks: seq<Check>, app: string, i: nat, j: nat)
    requires AppKey(app) in reg && reg[AppKey(app)].bucket.Some? && Sane(reg[AppKey(app)])
    requires ChecksRise(checks) && i < j <= |checks| && NotAhead(reg[AppKey(app)], checks[0].now)
    ensures var b := reg[AppKey(app)].bucket.value;
            Admissions(reg, checks, app, i, j) as real
            <= b.meter.cap + (b.clock(checks[j - 1].now) - b.clock(checks[i].now))
  {
    AppSeesOneRun(reg, checks, app, i, j);
    MarkedRate(reg[AppKey(app)], checks, Asking(reg, checks, app), i, j);
  }

  lemma MarkedRate(l: Lim, checks: seq<Check>, marks: seq<bool>, i: nat, j: nat)
    requires l.bucket.Some? && Sane(l) && |marks| == |checks|
    requires ChecksRise(checks) && i < j <= |checks| && NotAhead(l, checks[0].now)
    ensures var b := l.bucket.value;
            Passed(l, Times(checks, marks, j), |Times(checks, marks, i)|) as real
            <= b.meter.cap + (b.clock(checks[j - 1].now) - b.clock(checks[i].now))
  {
    var times, k := Times(checks, marks, j), |Times(checks, marks, i)|;
    TimesRise(checks, marks, j);
    TimesFrom(checks, marks, i, j);
    assert checks[i].now <= checks[j - 1].now;
    if k < |times| {
      NotAheadLater(l, checks[0].now, times[0]);
      RateBound(l, times, k, |times|);
      assert times[..|times|] == times;
    }
  }

  lemma AppRateByClock(reg: Registry, checks: seq<Check>, app: string, rate: real, i: nat, j: nat)
    requires AppKey(app) in reg && Rated(reg[AppKey(app)], rate)
    requires ChecksRise(checks) && i < j <= |checks| && NotAhead(reg[AppKey(app)], checks[0].now)
    ensures Admissions(reg, checks, app, i, j) as real <= reg[AppKey(app)].bucket.value.meter.cap
         + (RateClock(rate)(checks[j - 1].now) - RateClock(rate)(checks[i].now))
  {
    RatedIsSane(reg[AppKey(app)], rate);
    AppRateBound(reg, checks, app, i, j);
  }

  // In seconds.
  lemma AppRateBoundInSeconds(reg: Registry, checks: seq<Check>, app: string, l: Lim, rate: real, i: nat, j: nat)
    requires AppKey(app) in reg && reg[AppKey(app)] == l && Rated(l, rate)
    requires ChecksRise(checks) && i < j <= |checks| && NotAhead(l, checks[0].now)
    ensures WithinRate(Admissions(reg, checks, app, i, j), l, rate, checks[i].now, checks[j - 1].now)
  {
    AppRateByClock(reg, checks, app, rate, i, j);
    Earns(rate, checks[i].now, checks[j - 1].now, Admissions(reg, checks, app, i, j), l);
  }

  /** ... and its own quota. */
  lemma AppQuotaBound(reg: Registry, checks: seq<Check>, app: string, i: nat, j: nat, length: nat)
    requires AppKey(app) in reg && reg[AppKey(app)].quota.Some? && Sane(reg[AppKey(app)])
    requires ChecksRise(checks) && i < j <= |checks| && NotAhead(reg[AppKey(app)], checks[0].now)
    requires 0 <= checks[i].now && checks[j - 1].now <= checks[i].now + length
    ensures var q := reg[AppKey(app)].quota.value;
            Admissions(reg, checks, app, i, j) <= FW.Cap(q) * (length / q.window + 2)
  {
    var q, spans := reg[AppKey(app)].quota.value, length / reg[AppKey(app)].quota.value.window + 2;
    assert checks[i].now <= checks[j - 1].now;
    FW.SpanOfWindows(q.window, checks[i].now, checks[j - 1].now, length);
    AppQuotaWindows(reg, checks, app, i, j, spans);
    FW.CapsTimes(FW.Cap(q), spans);
  }

  lemma AppQuotaWindows(reg: Registry, checks: seq<Check>, app: string, i: nat, j: nat, spans: nat)
    requires AppKey(app) in reg && reg[AppKey(app)].quota.Some? && Sane(reg[AppKey(app)])
    requires ChecksRise(checks) && i < j <= |checks| && NotAhead(reg[AppKey(app)], checks[0].now)
    requires var q := reg[AppKey(app)].quota.value; FW.Key(q, checks[j - 1].now) - FW.Key(q, checks[i].now) < spans
    ensures Admissions(reg, checks, app, i, j) <= FW.Caps(FW.Cap(reg[AppKey(app)].quota.value), spans)
  {
    AppSeesOneRun(reg, checks, app, i, j);
    MarkedQuota(reg[AppKey(app)], checks, Asking(reg, checks, app), i, j, spans);
  }

  lemma MarkedQuota(l: Lim, checks: seq<Check>, marks: seq<bool>, i: nat, j: nat, spans: nat)
    requires l.quota.Some? && Sane(l) && |marks| == |checks|
    requires ChecksRise(checks) && i < j <= |checks| && NotAhead(l, checks[0].now)
    requires FW.Key(l.quota.value, checks[j - 1].now) - FW.Key(l.quota.value, checks[i].now) < spans
    ensures Passed(l, Times(checks, marks, j), |Times(checks, marks, i)|) <= FW.Caps(FW.Cap(l.quota.value), spans)
  {
    var times, k := Times(checks, marks, j), |Times(checks, marks, i)|;
    TimesRise(checks, marks, j);
    TimesFrom(checks, marks, i, j);
    if k < |times| {
      NotAheadLater(l, checks[0].now, times[0]);
      FW.QuotientGrows(l.quota.value.window, checks[i].now, times[k]);
      FW.QuotientGrows(l.quota.value.window, times[|times| - 1], checks[j - 1].now);
      QuotaWindows(l, times, k, |times|, spans);
      assert times[..|times|] == times;
    }
  }

  // ---------- A job's own limiter ----------

  // The checks of this job, and which of them get past the job level.
  function OfJob(checks: seq<Check>, job: int): (marks: seq<bool>)
    ensures |marks| == |checks|
  {
    seq(|checks|, k requires 0 <= k < |checks| => checks[k].job == job)
  }

  function PastJob(reg: Registry, checks: seq<Check>, job: int): (marks: seq<bool>)
    ensures |marks| == |checks|
  {
    seq(|checks|, k requires 0 <= k < |checks| =>
      checks[k].job == job && Answer(AfterChecks(reg, checks, k), checks[k]) != JobLimited)
  }

  // How many of the checks of this job from i to just before j got past the job level.
  function JobPasses(reg: Registry, checks: seq<Check>, job: int, i: nat, j: nat): nat
    requires i <= j <= |checks|
  {
    Count(PastJob(reg, checks, job), i, j)
  }

  lemma JobStep(reg: Registry, c: Check, job: int)
    requires JobKey(job) in reg
    ensures var l := reg[JobKey(job)];
            && JobKey(job) in Checked(reg, c)
            && Checked(reg, c)[JobKey(job)] == (if c.job == job then Asked(l, c.now) else l)
            && (c.job == job ==> (Answer(reg, c) != JobLimited <==> Passes(l, c.now)))
  {
    KeysDiffer(c.app, c.app, c.job, job);
    KeysDiffer(c.app, c.app, job, job);
  }

  // The job's limiter has followed After on the times of the job's checks.
  ghost predicate JobFollowed(reg: Registry, checks: seq<Check>, job: int, marks: seq<bool>, j: nat)
    requires JobKey(job) in reg && |marks| == |checks| && j <= |checks|
  {
    var after := AfterChecks(reg, checks, j);
    JobKey(job) in after && after[JobKey(job)] == After(reg[JobKey(job)], Times(checks, marks, j))
  }

  lemma JobFollowedAtStart(reg: Registry, checks: seq<Check>, job: int, marks: seq<bool>)
    requires JobKey(job) in reg && |marks| == |checks|
    ensures JobFollowed(reg, checks, job, marks, 0)
  {
  }

  lemma JobFollowedNext(reg: Registry, checks: seq<Check>, job: int, marks: seq<bool>, j: nat)
    requires JobKey(job) in reg && |marks| == |checks| && j < |checks|
    requires JobFollowed(reg, checks, job, marks, j) && (marks[j] <==> checks[j].job == job)
    ensures JobFollowed(reg, checks, job, marks, j + 1)
  {
    var r := AfterChecks(reg, checks, j);
    JobStep(r, checks[j], job);
    var after := Checked(r, checks[j])[JobKey(job)];
    FollowsOn(reg[JobKey(job)], checks, marks, j, r[JobKey(job)], after);
  }

  lemma JobFollows(reg: Registry, checks: seq<Check>, job: int, marks: seq<bool>, j: nat)
    requires JobKey(job) in reg && j <= |checks| == |marks|
    requires forall k :: 0 <= k < j ==> (marks[k] <==> checks[k].job == job)
    ensures JobFollowed(reg, checks, job, marks, j)
  {
    JobFollowedAtStart(reg, checks, job, marks);
    for i := 0 to j
      invariant JobFollowed(reg, checks, job, marks, i)
    {
      JobFollowedNext(reg, checks, job, marks, i);
    }
  }

  lemma JobAgrees(reg: Registry, checks: seq<Check>, job: int, marks: seq<bool>, k: nat)
    requires JobKey(job) in reg && k < |checks| == |marks|
    requires forall i :: 0 <= i <= k ==> (marks[i] <==> checks[i].job == job)
    ensures checks[k].job == job && Answer(AfterChecks(reg, checks, k), checks[k]) != JobLimited <==>
            marks[k] && Passes(After(reg[JobKey(job)], Times(checks, marks, k)), checks[k].now)
  {
    JobFollows(reg, checks, job, marks, k);
    JobStep(AfterChecks(reg, checks, k), checks[k], job);
  }

  /** Across any mix of apps and jobs, a job's limiter is asked by every check of that job and by no other, and in every
      stretch of checks those that get past the job level are exactly those it let through; it has counted each of them
      once. */
  lemma JobSeesOneRun(reg: Registry, checks: seq<Check>, job: int, i: nat, j: nat)
    requires JobKey(job) in reg && i <= j <= |checks|
    ensures var times, first := Times(checks, OfJob(checks, job), j), |Times(checks, OfJob(checks, job), i)|;
            var l, after := reg[JobKey(job)], AfterChecks(reg, checks, j);
            && JobKey(job) in after && after[JobKey(job)] == After(l, times)
            && first <= |times| && JobPasses(reg, checks, job, i, j) == Passed(l, times, first)
            && after[JobKey(job)].allowed + after[JobKey(job)].rejected == l.allowed + l.rejected + |times|
  {
    var l, marks, past := reg[JobKey(job)], OfJob(checks, job), PastJob(reg, checks, job);
    JobFollows(reg, checks, job, marks, j);
    forall k | 0 <= k < j ensures Agrees(l, checks, marks, past, k) {
      JobAgrees(reg, checks, job, marks, k);
    }
    CountIsPassed(l, checks, marks, past, i, j);
    EveryCallCounted(l, Times(checks, marks, j));
  }

  /** So across any mix of apps, in any stretch of checks, the checks of a job that get past the job level obey the
      job's own bucket... */
  lemma JobRateBound(reg: Registry, checks: seq<Check>, job: int, i: nat, j: nat)
    requires JobKey(job) in reg && reg[JobKey(job)].bucket.Some? && Sane(reg[JobKey(job)])
    requires ChecksRise(checks) && i < j <= |checks| && NotAhead(reg[JobKey(job)], checks[0].now)
    ensures var b := reg[JobKey(job)].bucket.value;
            JobPasses(reg, checks, job, i, j) as real
            <= b.meter.cap + (b.clock(checks[j - 1].now) - b.clock(checks[i].now))
  {
    JobSeesOneRun(reg, checks, job, i, j);
    MarkedRate(reg[JobKey(job)], checks, OfJob(checks, job), i, j);
  }

  lemma JobRateByClock(reg: Registry, checks: seq<Check>, job: int, rate: real, i: nat, j: nat)
    requires JobKey(job) in reg && Rated(reg[JobKey(job)], rate)
    requires ChecksRise(checks) && i < j <= |checks| && NotAhead(reg[JobKey(job)], checks[0].now)
    ensures JobPasses(reg, checks, job, i, j) as real <= reg[JobKey(job)].bucket.value.meter.cap
         + (RateClock(rate)(checks[j - 1].now) - RateClock(rate)(checks[i].now))
  {
    RatedIsSane(reg[JobKey(job)], rate);
    JobRateBound(reg, checks, job, i, j);
  }

  // In seconds.
  lemma JobRateBoundInSeconds(reg: Registry, checks: seq<Check>, job: int, l: Lim, rate: real, i: nat, j: nat)
    requires JobKey(job) in reg && reg[JobKey(job)] == l && Rated(l, rate)
    requires ChecksRise(checks) && i < j <= |checks| && NotAhead(l, checks[0].now)
    ensures WithinRate(JobPasses(reg, checks, job, i, j), l, rate, checks[i].now, checks[j - 1].now)
  {
    JobRateByClock(reg, checks, job, rate, i, j);
    Earns(rate, checks[i].now, checks[j - 1].now, JobPasses(reg, checks, job, i, j), l);
  }

  /** ... and its own quota. */
  lemma JobQuotaBound(reg: Registry, checks: seq<Check>, job: int, i: nat, j: nat, length: nat)
    requires JobKey(job) in reg && reg[JobKey(job)].quota.Some? && Sane(reg[JobKey(job)])
    requires ChecksRise(checks) && i < j <= |checks| && NotAhead(reg[JobKey(job)], checks[0].now)
    requires 0 <= checks[i].now && checks[j - 1].now <= checks[i].now + length
    ensures var q := reg[JobKey(job)].quota.value;
            JobPasses(reg, checks, job, i, j) <= FW.Cap(q) * (length / q.window + 2)
  {
    var q, spans := reg[JobKey(job)].quota.value, length / reg[JobKey(job)].quota.value.window + 2;
    assert checks[i].now <= checks[j - 1].now;
    FW.SpanOfWindows(q.window, checks[i].now, checks[j - 1].now, length);
    JobQuotaWindows(reg, checks, job, i, j, spans);
    FW.CapsTimes(FW.Cap(q), spans);
  }

  lemma JobQuotaWindows(reg: Registry, checks: seq<Check>, job: int, i: nat, j: nat, spans: nat)
    requires JobKey(job) in reg && reg[JobKey(job)].quota.Some? && Sane(reg[JobKey(job)])
    requires ChecksRise(checks) && i < j <= |checks| && NotAhead(reg[JobKey(job)], checks[0].now)
    requires var q := reg[JobKey(job)].quota.value; FW.Key(q, checks[j - 1].now) - FW.Key(q, checks[i].now) < spans
    ensures JobPasses(reg, checks, job, i, j) <= FW.Caps(FW.Cap(reg[JobKey(job)].quota.value), spans)
  {
    JobSeesOneRun(reg, checks, job, i, j);
    MarkedQuota(reg[JobKey(job)], checks, OfJob(checks, job), i, j, spans);
  }

  /** A check is allowed exactly if neither its job's limiter nor its app's, those that are registered, refuses it; the
      app's is not asked when the job's refuses. */
  lemma AllowedExactly(reg: Registry, c: Check)
    ensures Answer(reg, c) == Allowed <==>
            && (JobKey(c.job) in reg ==> Passes(reg[JobKey(c.job)], c.now))
            && (AppKey(c.app) in reg ==> Passes(reg[AppKey(c.app)], c.now))
    ensures Answer(reg, c) == JobLimited <==> JobKey(c.job) in reg && !Passes(reg[JobKey(c.job)], c.now)
  {
    KeysDiffer(c.app, c.app, c.job, c.job);
  }

  // ---------- The objects ----------

  class Limiter {
    const bucket: Option<TokenBucket>
    const quota: Option<FW.FixedWindowQuota>
    var allowed: nat
    var rejected: nat

    ghost var Repr: set<object>

    ghost predicate Valid()
      reads this, Repr
    {
      && this in Repr
      && (bucket.Some? ==> bucket.value in Repr)
      && (quota.Some? ==> quota.value in Repr && quota.value.windowNs > 0)
    }

    ghost function View(): (l: Lim)
      requires Valid()
      reads this, Repr
      ensures l.quota.Some? ==> l.quota.value.window > 0
    {
      Lim(if bucket.Some? then Some(Paced(RateClock(bucket.value.rate), bucket.value.View())) else None,
          if quota.Some? then Some(quota.value.View()) else None, allowed, rejected)
    }

    // Both layers are optional; zero or less turns one off.
    constructor (rate: real, burst: real, window: int, limit: int, now: int)
      ensures Valid() && fresh(Repr)
      ensures bucket.Some? <==> rate > 0.0
      ensures quota.Some? <==> window > 0 && limit > 0
      ensures Sane(View()) && allowed == rejected == 0
      ensures rate > 0.0 ==> bucket.value.rate == rate && var cap := if burst <= 0.0 then rate else burst;
        View().bucket.value.meter == Meter(cap, cap, RateClock(rate)(now))
      ensures window > 0 && limit > 0 ==> View().quota.value == FW.Quota(window, limit, 0, FW.Quotient(now, window))
    {
      allowed, rejected := 0, 0;
      if rate > 0.0 {
        var b := new TokenBucket(rate, burst, Seconds(now));
        bucket := Some(b);
        RateClockTicks(rate, now, now);
      } else {
        bucket := None;
      }
      if window > 0 && limit > 0 {
        var q := new FW.FixedWindowQuota(window, limit, now);
        quota := Some(q);
      } else {
        quota := None;
      }
      new;
      Repr := {this} + (if bucket.Some? then {bucket.value} else {}) + (if quota.Some? then {quota.value} else {});
    }

    method Allow(now: int) returns (ok: bool)
      requires Valid()
      modifies Repr
      ensures Valid() && Repr == old(Repr) && ok == Passes(old(View()), now)
      ensures View() == Asked(old(View()), now)
    {
      ghost var v := View();
      if bucket.Some? {
        assert v.bucket.value.clock(now) == bucket.value.rate * Seconds(now);
        var granted := bucket.value.AllowN(1.0, Seconds(now));
        assert bucket.value.View() == Step(v.bucket.value.meter, OneCall(v.bucket.value.clock, now));
        assert granted <==> BucketPasses(v, now);
        if !granted {
          rejected := rejected + 1;
          return false;
        }
      }
      if quota.Some? {
        var granted := quota.value.Allow(now);
        if !granted {
          rejected := rejected + 1;
          return false;
        }
      }
      allowed := allowed + 1;
      return true;
    }
  }

  class LimiterRegistry {
    var limiters: map<string, Limiter>

    ghost function Footprint(): set<object>
      reads this, limiters.Values
    {
      set k, o | k in limiters && o in limiters[k].Repr :: o
    }

    // One limiter per key, none sharing anything with another.
    ghost predicate Valid()
      reads this, limiters.Values, Footprint()
    {
      && (forall k :: k in limiters ==> limiters[k].Valid() && this !in limiters[k].Repr)
      && (forall j, k :: j in limiters && k in limiters && j != k ==> limiters[j].Repr !! limiters[k].Repr)
    }

    ghost function Views(): Registry
      requires Valid()
      reads this, limiters.Values, Footprint()
    {
      map k | k in limiters :: limiters[k].View()
    }

    constructor ()
      ensures Valid() && Views() == map[]
    {
      limiters := map[];
    }

    // Registers a limiter, or replaces the one under this key.
    method Register(key: string, l: Limiter)
      requires Valid() && l.Valid() && this !in l.Repr
      requires forall k :: k in limiters ==> l.Repr !! limiters[k].Repr
      modifies this
      ensures Valid() && limiters == old(limiters)[key := l]
    {
      limiters := limiters[key := l];
    }

    method AskOne(key: string, now: int) returns (ok: bool)
      requires Valid()
      modifies Footprint()
      ensures Valid() && limiters == old(limiters) && Footprint() == old(Footprint())
      ensures ok == Yes(old(Views()), key, now) && Views() == Ask(old(Views()), key, now)
    {
      if key !in limiters {
        return true;
      }
      ghost var after := Ask(Views(), key, now);
      ok := AskAt(key, now);
      ViewsAre(after);
    }

    lemma ViewsAre(views: Registry)
      requires Valid() && views.Keys == limiters.Keys && forall k :: k in limiters ==> limiters[k].View() == views[k]
      ensures Views() == views
    {
    }

    method AskAt(key: string, now: int) returns (ok: bool)
      requires Valid() && key in limiters
      modifies limiters[key].Repr
      ensures Valid() && limiters == old(limiters) && Footprint() == old(Footprint())
      ensures ok == Passes(old(limiters[key].View()), now)
      ensures limiters[key].View() == Asked(old(limiters[key].View()), now)
      ensures forall k :: k in limiters && k != key ==> limiters[k].View() == old(limiters[k].View())
    {
      ok := limiters[key].Allow(now);
    }

    /** Job first, then app; a key that is not registered does not limit. */
    method CheckJob(appName: string, jobID: int, now: int) returns (v: Verdict)
      requires Valid()
      modifies Footprint()
      ensures Valid() && limiters == old(limiters)
      ensures v == Answer(old(Views()), Check(appName, jobID, now))
      ensures Views() == Checked(old(Views()), Check(appName, jobID, now))
    {
      var jobOk := AskOne(JobKey(jobID), now);
      if !jobOk {
        return JobLimited;
      }
      var appOk := AskOne(AppKey(appName), now);
      return if appOk then Allowed else AppLimited;
    }
  }
}
