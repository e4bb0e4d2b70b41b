/** The lazily refilled token bucket, over exact reals and explicit times.

    The functions are about a meter: the bucket with time counted in tokens (rate times seconds), so that a
    refill is an addition.  The class at the end is the bucket itself, in seconds. */
module TokenBuckets {

  function MinF(a: real, b: real): real {
    if a < b then a else b
  }

  datatype Meter = Meter(cap: real, level: real, last: real)

  // AllowN(n) at a time given in tokens.
  datatype Call = Call(at: real, n: real)

  /** What Available reports, and what AllowN finds after its refill. */
  function Level(m: Meter, at: real): real {
    MinF(m.cap, m.level + (at - m.last))
  }

  // n tokens if AllowN admits the call, none if it does not.
  function Draw(m: Meter, c: Call): real {
    if Level(m, c.at) >= c.n then c.n else 0.0
  }

  function Step(m: Meter, c: Call): Meter {
    Meter(m.cap, Level(m, c.at) - Draw(m, c), c.at)
  }

  function Steps(m: Meter, calls: seq<Call>): Meter
    decreases |calls|
  {
    if calls == [] then m else Step(Steps(m, calls[..|calls| - 1]), calls[|calls| - 1])
  }

  // The tokens drawn by the calls from position i on.
  function Drawn(m: Meter, calls: seq<Call>, i: nat): real
    decreases |calls|
  {
    if |calls| <= i then 0.0
    else
      var n := |calls| - 1;
      Drawn(m, calls[..n], i) + Draw(Steps(m, calls[..n]), calls[n])
  }

  /** Calls for no fewer than zero tokens, at nondecreasing times from the last refill on. */
  ghost predicate InOrder(m: Meter, calls: seq<Call>) {
    && (forall i :: 0 <= i < |calls| ==> calls[i].n >= 0.0 && m.last <= calls[i].at)
    && (forall i, k :: 0 <= i < k < |calls| ==> calls[i].at <= calls[k].at)
  }

  /** The number of tokens stays between zero and the capacity. */
  lemma {:induction false} StepsInRange(m: Meter, calls: seq<Call>)
    requires 0.0 <= m.level <= m.cap && InOrder(m, calls)
    ensures var s := Steps(m, calls);
            0.0 <= s.level <= s.cap == m.cap && s.last == if calls == [] then m.last else calls[|calls| - 1].at
    decreases |calls|
  {
    if calls != [] {
      var n := |calls| - 1;
      StepsInRange(m, calls[..n]);
      assert n > 0 ==> calls[..n][n - 1] == calls[n - 1];
    }
  }

  // n more at time t stay within every bound that starts at a call, at the start, or at t itself.
  ghost predicate Within(m: Meter, calls: seq<Call>, t: real, n: real) {
    && n <= m.cap
    && n + Drawn(m, calls, 0) <= m.level + (t - m.last)
    && forall i :: 0 <= i < |calls| ==> n + Drawn(m, calls, i) <= m.cap + (t - calls[i].at)
  }

  /** The bucket is exactly its bounds: it admits a call if and only if what it has granted since any earlier
      point, together with this call, stays within the capacity plus the refill since then (and within the
      starting tokens plus the refill since the start). */
  lemma {:induction false} LevelExactly(m: Meter, calls: seq<Call>, t: real, n: real)
    requires 0.0 <= m.level <= m.cap && InOrder(m, calls)
    ensures Level(Steps(m, calls), t) >= n <==> Within(m, calls, t, n)
    decreases |calls|
  {
    if calls != [] {
      var k := |calls| - 1;
      var pre, c := calls[..k], calls[k];
      var s := Steps(m, pre);
      StepsInRange(m, pre);
      var x := n + Draw(s, c) - (t - c.at);
      LevelExactly(m, pre, c.at, x);
      assert Drawn(m, calls, k) == Draw(s, c);
      assert forall i :: 0 <= i < k ==> pre[i] == calls[i] && Drawn(m, calls, i) == Drawn(m, pre, i) + Draw(s, c);
      assert Level(Steps(m, calls), t) >= n <==> n <= m.cap && Level(s, c.at) >= x;
    }
  }

  /** In any stretch of a run, from call i to the last, the tokens granted total at most the capacity plus the
      refill between those two calls. */
  lemma {:induction false} DrawnBound(m: Meter, calls: seq<Call>, i: nat)
    requires 0.0 <= m.level <= m.cap && InOrder(m, calls) && i < |calls|
    ensures Drawn(m, calls, i) <= m.cap + (calls[|calls| - 1].at - calls[i].at)
    decreases |calls|
  {
    var k := |calls| - 1;
    var pre, c := calls[..k], calls[k];
    LevelExactly(m, pre, c.at, c.n);
    assert i < k ==> pre[i] == calls[i];
    if i < k {
      DrawnBound(m, pre, i);
    }
  }

  // The decisions of a run.
  function Decisions(m: Meter, calls: seq<Call>): seq<bool>
    decreases |calls|
  {
    if calls == [] then []
    else [Level(m, calls[0].at) >= calls[0].n] + Decisions(Step(m, calls[0]), calls[1..])
  }

  /** Refill points (calls for no tokens, or refused ones) may be slipped in anywhere, as Available calls may:
      no later decision changes. */
  lemma ExtraRefill(m: Meter, extra: Call, calls: seq<Call>)
    requires 0.0 <= m.level <= m.cap && m.last <= extra.at && Draw(m, extra) == 0.0
    requires forall i :: 0 <= i < |calls| ==> extra.at <= calls[i].at
    ensures Decisions(Step(m, extra), calls) == Decisions(m, calls)
  {
    if calls != [] {
      assert Step(Step(m, extra), calls[0]) == Step(m, calls[0]);
    }
  }

  // ---------- In seconds ----------

  lemma Spread(rate: real, a: real, b: real)
    ensures (b - a) * rate == rate * b - rate * a == rate * (b - a)
  {
  }

  lemma Grows(rate: real, a: real, b: real)
    requires rate >= 0.0 && a <= b
    ensures rate * a <= rate * b
  {
    assert 0.0 <= rate * (b - a);
    Spread(rate, a, b);
  }

  // These calls, timed in seconds, as the meter sees them.
  ghost predicate Timed(rate: real, seconds: seq<real>, calls: seq<Call>) {
    |seconds| == |calls| && forall i :: 0 <= i < |calls| ==> calls[i].at == rate * seconds[i] && calls[i].n >= 0.0
  }

  lemma TimedInOrder(rate: real, m: Meter, start: real, seconds: seq<real>, calls: seq<Call>)
    requires rate >= 0.0 && Timed(rate, seconds, calls) && m.last == rate * start
    requires forall i :: 0 <= i < |seconds| ==> start <= seconds[i]
    requires forall i, k :: 0 <= i < k < |seconds| ==> seconds[i] <= seconds[k]
    ensures InOrder(m, calls)
  {
    forall i | 0 <= i < |calls| ensures m.last <= calls[i].at {
      Grows(rate, start, seconds[i]);
    }
    forall i, k | 0 <= i < k < |calls| ensures calls[i].at <= calls[k].at {
      Grows(rate, seconds[i], seconds[k]);
    }
  }

  /** capacity + rate * (tj - ti), for every stretch of a run of AllowN calls. */
  lemma GrantedBound(rate: real, m: Meter, start: real, seconds: seq<real>, calls: seq<Call>, i: nat)
    requires rate >= 0.0 && 0.0 <= m.level <= m.cap && Timed(rate, seconds, calls) && m.last == rate * start
    requires forall k :: 0 <= k < |seconds| ==> start <= seconds[k]
    requires forall k, l :: 0 <= k < l < |seconds| ==> seconds[k] <= seconds[l]
    requires i < |calls|
    ensures Drawn(m, calls, i) <= m.cap + rate * (seconds[|calls| - 1] - seconds[i])
  {
    TimedInOrder(rate, m, start, seconds, calls);
    DrawnBound(m, calls, i);
    Spread(rate, seconds[i], seconds[|calls| - 1]);
  }

  class TokenBucket {
    const rate: real
    const capacity: real
    var tokens: real
    var lastRefill: real

    ghost function View(): Meter
      reads this
    {
      Meter(capacity, tokens, rate * lastRefill)
    }

    // Full at the start; a capacity of zero or less means the rate.
    constructor (rate: real, capacity: real, now: real)
      ensures var cap := if capacity <= 0.0 then rate else capacity; View() == Meter(cap, cap, rate * now)
      ensures this.rate == rate && lastRefill == now
    {
      var cap := if capacity <= 0.0 then rate else capacity;
      this.rate, this.capacity, tokens, lastRefill := rate, cap, cap, now;
    }

    method AllowN(n: real, now: real) returns (ok: bool)
      modifies this
      ensures ok <==> Level(old(View()), rate * now) >= n
      ensures View() == Step(old(View()), Call(rate * now, n)) && lastRefill == now
    {
      Spread(rate, lastRefill, now);
      var elapsed := now - lastRefill;
      tokens := MinF(capacity, tokens + elapsed * rate);
      lastRefill := now;
      if tokens < n {
        return false;
      }
      tokens := tokens - n;
      return true;
    }

    method Available(now: real) returns (available: real)
      ensures available == Level(View(), rate * now)
    {
      Spread(rate, lastRefill, now);
      available := MinF(capacity, tokens + (now - lastRefill) * rate);
    }
  }
}
