/** The fixed-window quota: a counter that starts again whenever the window number changes. */
module FixedWindows {
  import opened Basics

  // Go's integer division, which truncates towards zero.
  function Quotient(a: int, b: int): int
    requires b > 0
  {
    if a >= 0 then a / b else -((-a) / b)
  }

  datatype Quota = Quota(window: int, limit: int, count: int, winKey: int)

  function Key(q: Quota, now: int): int
    requires q.window > 0
  {
    Quotient(now, q.window)
  }

  // The count that a call at this time finds.
  function Used(q: Quota, now: int): int
    requires q.window > 0
  {
    if Key(q, now) != q.winKey then 0 else q.count
  }

  predicate Allows(q: Quota, now: int)
    requires q.window > 0
  {
    Used(q, now) < q.limit
  }

  function Charge(q: Quota, now: int): Quota
    requires q.window > 0
  {
    q.(winKey := Key(q, now), count := Used(q, now) + if Allows(q, now) then 1 else 0)
  }

  function After(q: Quota, times: seq<int>): (r: Quota)
    requires q.window > 0
    ensures r.window == q.window && r.limit == q.limit
    decreases |times|
  {
    if times == [] then q else Charge(After(q, times[..|times| - 1]), times[|times| - 1])
  }

  // How many of the calls were let through, counting only those in window k if one is given.
  function Passed(q: Quota, times: seq<int>, only: bool, k: int): nat
    requires q.window > 0
    decreases |times|
  {
    if times == [] then 0
    else
      var n := |times| - 1;
      var before := After(q, times[..n]);
      Passed(q, times[..n], only, k) +
      if Allows(before, times[n]) && (!only || Key(q, times[n]) == k) then 1 else 0
  }

  predicate Sane(q: Quota) {
    q.window > 0 && 0 <= q.count <= (if q.limit > 0 then q.limit else 0)
  }

  // Nondecreasing times, none before the current window.
  ghost predicate Timely(q: Quota, times: seq<int>)
    requires q.window > 0
  {
    && (forall i :: 0 <= i < |times| ==> q.winKey <= Key(q, times[i]))
    && (forall i, j :: 0 <= i < j < |times| ==> times[i] <= times[j])
  }

  lemma DivisionGrows(w: int, a: int, b: int)
    requires w > 0 && 0 <= a <= b
    ensures 0 <= a / w <= b / w
  {
    TimesGrows(w, b / w + 1, a / w);
  }

  lemma QuotientGrows(w: int, a: int, b: int)
    requires w > 0 && a <= b
    ensures Quotient(a, w) <= Quotient(b, w)
  {
    if a >= 0 {
      DivisionGrows(w, a, b);
    } else if b < 0 {
      DivisionGrows(w, -b, -a);
    } else {
      DivisionGrows(w, 0, b);
      DivisionGrows(w, 0, -a);
    }
  }

  /** The counter is the number of calls let through in the current window, with what was used of it before. */
  lemma {:induction false} CountIsPassed(q: Quota, times: seq<int>)
    requires Sane(q) && Timely(q, times)
    ensures var a := After(q, times);
            && Sane(a) && q.winKey <= a.winKey && (times != [] ==> a.winKey == Key(q, times[|times| - 1]))
            && a.count == Passed(q, times, true, a.winKey) + if a.winKey == q.winKey then q.count else 0
    ensures forall k :: k > After(q, times).winKey ==> Passed(q, times, true, k) == 0
    decreases |times|
  {
    if times != [] {
      var n := |times| - 1;
      var pre, t := times[..n], times[n];
      CountIsPassed(q, pre);
      if n > 0 {
        assert pre[n - 1] == times[n - 1];
        QuotientGrows(q.window, times[n - 1], t);
      }
    }
  }

  /** Exactly `limit` per window: a call is let through if and only if fewer than `limit` calls of its window have
      been, those before this run included. */
  lemma AllowsExactly(q: Quota, times: seq<int>, now: int)
    requires Sane(q) && Timely(q, times + [now])
    ensures var k := Key(q, now);
            Allows(After(q, times), now) <==>
              Passed(q, times, true, k) + (if k == q.winKey then q.count else 0) < q.limit
  {
    var all := times + [now];
    assert forall i :: 0 <= i < |times| ==> all[i] == times[i];
    assert all[|times|] == now;
    CountIsPassed(q, times);
    if times != [] {
      assert all[|times| - 1] == times[|times| - 1];
      QuotientGrows(q.window, times[|times| - 1], now);
    }
  }

  /** At most `limit` per aligned window. */
  lemma {:induction false} WindowBound(q: Quota, times: seq<int>, k: int)
    requires Sane(q) && Timely(q, times)
    ensures Passed(q, times, true, k) <= if q.limit > 0 then q.limit else 0
    decreases |times|
  {
    if times != [] {
      var n := |times| - 1;
      assert times == times[..n] + [times[n]];
      AllowsExactly(q, times[..n], times[n]);
      WindowBound(q, times[..n], k);
    }
  }

  // cap for each of n windows.
  function Caps(cap: nat, n: nat): nat {
    if n == 0 then 0 else Caps(cap, n - 1) + cap
  }

  lemma {:induction false} CapsGrow(cap: nat, m: nat, n: nat)
    requires m < n
    ensures Caps(cap, m) + cap <= Caps(cap, n)
    decreases n
  {
    if m < n - 1 {
      CapsGrow(cap, m, n - 1);
    }
  }

  lemma {:induction false} CapsTimes(cap: nat, n: nat)
    ensures Caps(cap, n) == cap * n
  {
    if n > 0 {
      CapsTimes(cap, n - 1);
    }
  }

  function Cap(q: Quota): nat {
    if q.limit > 0 then q.limit else 0
  }

  // Over a run, at most `limit` for every window from the first to the last.
  lemma {:induction false} WindowsBound(q: Quota, times: seq<int>, first: int)
    requires Sane(q) && Timely(q, times) && times != [] && first <= Key(q, times[0])
    ensures var a := After(q, times);
            first <= a.winKey && Passed(q, times, false, 0) <= Caps(Cap(q), a.winKey - first) + a.count
    decreases |times|
  {
    var n := |times| - 1;
    var pre, a := times[..n], After(q, times);
    CountIsPassed(q, times);
    if n == 0 {
      assert pre == [] && a.winKey == Key(q, times[0]);
    } else {
      var b := After(q, pre);
      WindowsBound(q, pre, first);
      CountIsPassed(q, pre);
      assert pre[n - 1] == times[n - 1];
      QuotientGrows(q.window, times[n - 1], times[n]);
      if a.winKey != b.winKey {
        CapsGrow(Cap(q), b.winKey - first, a.winKey - first);
      }
    }
  }

  /** In any interval of length L, at most limit * (L / w + 2): the calls of a run over nonnegative times that all
      lie within L of each other. */
  lemma IntervalBound(q: Quota, times: seq<int>, length: nat)
    requires Sane(q) && Timely(q, times) && times != []
    requires 0 <= times[0] && times[|times| - 1] <= times[0] + length
    ensures Passed(q, times, false, 0) <= Cap(q) * (length / q.window + 2)
  {
    var first, last, spans := Key(q, times[0]), Key(q, times[|times| - 1]), length / q.window + 2;
    SpanOfWindows(q.window, times[0], times[|times| - 1], length);
    SpansEnough(q, times, first, last, spans);
    CapsTimes(Cap(q), spans);
  }

  lemma SpansEnough(q: Quota, times: seq<int>, first: int, last: int, spans: nat)
    requires Sane(q) && Timely(q, times) && times != []
    requires first == Key(q, times[0]) && last == Key(q, times[|times| - 1])
    requires last - first < spans
    ensures Passed(q, times, false, 0) <= Caps(Cap(q), spans)
  {
    CountIsPassed(q, times);
    WindowsBound(q, times, first);
    CapsGrow(Cap(q), last - first, spans);
  }

  lemma SpanOfWindows(w: int, a: int, b: int, length: nat)
    requires w > 0 && 0 <= a <= b <= a + length
    ensures b / w - a / w <= length / w + 1
  {
    var x, y, z := a / w, b / w, length / w;
    assert w * y <= b && a < w * x + w && length < w * z + w;
    TimesGrows(w, z + 2, y - x);
    assert w * (y - x) == w * y - w * x && w * (z + 2) == w * z + 2 * w;
  }

  class FixedWindowQuota {
    const windowNs: int
    const limit: int
    var count: int
    var winKey: int

    ghost function View(): Quota
      reads this
    {
      Quota(windowNs, limit, count, winKey)
    }

    // A window of zero panics in the source; its callers only pass positive ones.
    constructor (window: int, limit: int, now: int)
      requires window > 0
      ensures View() == Quota(window, limit, 0, Quotient(now, window))
    {
      windowNs, this.limit, count, winKey := window, limit, 0, Quotient(now, window);
    }

    method Allow(now: int) returns (ok: bool)
      requires windowNs > 0
      modifies this
      ensures ok <==> Allows(old(View()), now)
      ensures View() == Charge(old(View()), now)
    {
      var key := Quotient(now, windowNs);
      if key != winKey {
        winKey := key;
        count := 0;
      }
      if count >= limit {
        return false;
      }
      count := count + 1;
      ok := true;
    }

    method Remaining(now: int) returns (left: int)
      requires windowNs > 0
      ensures left == if limit > Used(View(), now) then limit - Used(View(), now) else 0
      ensures left > 0 <==> Allows(View(), now)
    {
      var used := if Quotient(now, windowNs) != winKey then 0 else count;
      left := if limit - used > 0 then limit - used else 0;
    }
  }
}
