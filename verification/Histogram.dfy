/** The Prometheus histogram: bucket bounds built by an insertion sort and an in-place dedupe, observations
    scattered one bucket each, and a running sum at output; against counting.

    Values are reals.  The output format is "Histograms and summaries" of the Prometheus text exposition
    format 0.0.4. */
module Histogram {
  import opened Basics

  // float64(^uint64(0) >> 1) rounds to two to the sixty-third.
  const SENTINEL := 9223372036854775808.0

  ghost predicate Ascending(s: seq<real>) {
    forall i, k :: 0 <= i < k < |s| ==> s[i] <= s[k]
  }

  ghost predicate StrictlyAscending(s: seq<real>) {
    forall i, k :: 0 <= i < k < |s| ==> s[i] < s[k]
  }

  ghost function Elements(s: seq<real>): set<real> {
    set x | x in s
  }

  // ---------- Building the bounds ----------

  /** The inner loop of the insertion sort: entry i moves left past the larger ones. */
  method Sink(a: array<real>, i: nat)
    requires i < a.Length && Ascending(a[..i])
    modifies a
    ensures Ascending(a[..i + 1]) && multiset(a[..]) == multiset(old(a[..]))
  {
    var j := i;
    while j > 0 && a[j] < a[j - 1]
      invariant 0 <= j <= i && multiset(a[..]) == multiset(old(a[..]))
      invariant SortedBut(a[..i + 1], j)
    {
      ghost var s := a[..];
      a[j], a[j - 1] := a[j - 1], a[j];
      assert a[..] == s[j := s[j - 1]][j - 1 := s[j]];
      StepDown(s, i, j);
      j := j - 1;
    }
  }

  lemma StepDown(s: seq<real>, i: nat, j: nat)
    requires 0 < j <= i < |s| && SortedBut(s[..i + 1], j) && s[j] < s[j - 1]
    ensures var t := s[j := s[j - 1]][j - 1 := s[j]];
            multiset(t) == multiset(s) && SortedBut(t[..i + 1], j - 1)
  {
  }

  // Ascending, but for the entry on its way down.
  ghost predicate SortedBut(s: seq<real>, j: nat) {
    forall p, q :: 0 <= p < q < |s| && q != j ==> s[p] <= s[q]
  }

  method InsertionSort(a: array<real>)
    modifies a
    ensures Ascending(a[..]) && multiset(a[..]) == multiset(old(a[..]))
  {
    if a.Length == 0 {
      return;
    }
    var i := 1;
    while i < a.Length
      invariant 1 <= i <= a.Length && Ascending(a[..i]) && multiset(a[..]) == multiset(old(a[..]))
    {
      Sink(a, i);
      i := i + 1;
    }
    assert a[..a.Length] == a[..];
  }

  // The front holds the first i values once each.
  ghost predicate Deduped(s: seq<real>, front: seq<real>, i: nat)
    requires i <= |s|
  {
    && |front| <= i && StrictlyAscending(front) && Elements(front) == Elements(s[..i])
    && (i > 0 ==> front != [] && front[|front| - 1] == s[i - 1])
  }

  lemma DedupeStep(s: seq<real>, front: seq<real>, i: nat)
    requires Ascending(s) && i < |s| && Deduped(s, front, i)
    ensures Deduped(s, if i == 0 || s[i] != s[i - 1] then front + [s[i]] else front, i + 1)
  {
    SameElements(s, front, i);
    if i == 0 || s[i] != s[i - 1] {
      FrontBelow(s, front, i);
    } else {
      assert s[..i][i - 1] == s[i];
    }
  }

  /** Dedupe into the front of the same array: the entry compared with is read after earlier ones have been
      overwritten, and is still what it was. */
  method Dedupe(a: array<real>) returns (d: nat)
    requires Ascending(a[..])
    modifies a
    ensures d <= a.Length && StrictlyAscending(a[..d]) && Elements(a[..d]) == Elements(old(a[..]))
  {
    ghost var s := a[..];
    d := 0;
    for i := 0 to a.Length
      invariant Halfway(a, d, i, s)
    {
      d := DedupeOne(a, d, i, s);
    }
    assert s[..a.Length] == s;
  }

  ghost predicate Halfway(a: array<real>, d: nat, i: nat, s: seq<real>)
    reads a
  {
    && d <= i <= a.Length == |s| && (forall k :: i <= k < |s| ==> a[k] == s[k]) && (i > 0 ==> a[i - 1] == s[i - 1])
    && Deduped(s, a[..d], i)
  }

  // One turn of its loop.
  method DedupeOne(a: array<real>, d: nat, i: nat, ghost s: seq<real>) returns (n: nat)
    requires i < a.Length && Halfway(a, d, i, s) && Ascending(s)
    modifies a
    ensures Halfway(a, n, i + 1, s)
  {
    ghost var front := a[..d];
    DedupeStep(s, front, i);
    n := d;
    var v := a[i];
    if i == 0 || v != a[i - 1] {
      a[d] := v;
      n := d + 1;
      assert a[..n] == front + [v];
    }
  }

  lemma FrontBelow(s: seq<real>, front: seq<real>, i: nat)
    requires Ascending(s) && i < |s| && StrictlyAscending(front) && (i > 0 ==> s[i - 1] != s[i])
    requires Elements(front) == Elements(s[..i])
    ensures forall k :: 0 <= k < |front| ==> front[k] < s[i]
  {
    forall k | 0 <= k < |front| ensures front[k] < s[i] {
      assert front[k] in Elements(s[..i]);
      var j :| 0 <= j < i && s[j] == front[k];
      assert s[j] <= s[i - 1] <= s[i];
    }
  }

  lemma SameElements(s: seq<real>, front: seq<real>, i: nat)
    requires i < |s| && Elements(front) == Elements(s[..i])
    ensures Elements(front + [s[i]]) == Elements(s[..i + 1])
    ensures s[i] in s[..i] ==> Elements(front) == Elements(s[..i + 1])
  {
    assert s[..i + 1] == s[..i] + [s[i]];
    assert Elements(front + [s[i]]) == Elements(front) + {s[i]};
    assert Elements(s[..i] + [s[i]]) == Elements(s[..i]) + {s[i]};
  }

  /** newPromHistogram's bounds: the buckets, sorted and once each, and the sentinel.  They are strictly
      ascending if and only if every bucket is below the sentinel. */
  method BuildBounds(buckets: seq<real>) returns (bounds: seq<real>)
    ensures bounds != [] && bounds[|bounds| - 1] == SENTINEL && StrictlyAscending(bounds[..|bounds| - 1])
    ensures Elements(bounds[..|bounds| - 1]) == Elements(buckets)
    ensures StrictlyAscending(bounds) <==> forall b :: b in buckets ==> b < SENTINEL
  {
    var a := new real[|buckets|](i requires 0 <= i < |buckets| => buckets[i]);
    assert a[..] == buckets;
    InsertionSort(a);
    ghost var sorted := a[..];
    SameBag(buckets, sorted);
    var d := Dedupe(a);
    bounds := a[..d] + [SENTINEL];
    assert bounds[..|bounds| - 1] == a[..d];
    SentinelOnTop(a[..d], buckets);
  }

  lemma SameBag(s: seq<real>, t: seq<real>)
    requires multiset(s) == multiset(t)
    ensures Elements(s) == Elements(t)
  {
    forall x ensures x in s <==> x in t {
      assert x in s <==> x in multiset(s);
      assert x in t <==> x in multiset(t);
    }
  }

  lemma SentinelOnTop(front: seq<real>, buckets: seq<real>)
    requires StrictlyAscending(front) && Elements(front) == Elements(buckets)
    ensures StrictlyAscending(front + [SENTINEL]) <==> forall b :: b in buckets ==> b < SENTINEL
  {
    var all := front + [SENTINEL];
    forall b | b in buckets ensures b in front {
      assert b in Elements(buckets);
    }
    forall k | 0 <= k < |front| ensures front[k] in buckets && all[k] == front[k] {
      assert front[k] in Elements(front);
    }
    if StrictlyAscending(all) {
      forall b | b in buckets ensures b < SENTINEL {
        var k :| 0 <= k < |front| && front[k] == b;
        assert all[k] < all[|front|];
      }
    }
  }

  // ---------- Counting ----------

  // The bucket an observation goes to: the first whose bound is not below it, else the last.
  function Slot(bounds: seq<real>, v: real): (i: nat)
    requires bounds != []
    ensures i < |bounds| && (v <= bounds[i] || i == |bounds| - 1)
    ensures forall k :: 0 <= k < i ==> v > bounds[k]
  {
    if v <= bounds[0] || |bounds| == 1 then 0 else 1 + Slot(bounds[1..], v)
  }

  function AtMost(seen: seq<real>, bound: real): nat {
    if seen == [] then 0
    else AtMost(seen[..|seen| - 1], bound) + if seen[|seen| - 1] <= bound then 1 else 0
  }

  // The observations that went to bucket i; those that went to it or an earlier one.
  function InSlot(bounds: seq<real>, seen: seq<real>, i: nat): nat
    requires bounds != []
  {
    if seen == [] then 0
    else InSlot(bounds, seen[..|seen| - 1], i) + if Slot(bounds, seen[|seen| - 1]) == i then 1 else 0
  }

  function UpToSlot(bounds: seq<real>, seen: seq<real>, i: nat): nat
    requires bounds != []
  {
    if seen == [] then 0
    else UpToSlot(bounds, seen[..|seen| - 1], i) + if Slot(bounds, seen[|seen| - 1]) <= i then 1 else 0
  }

  function Cumulative(counts: seq<nat>, i: nat): nat
    requires i <= |counts|
  {
    if i == 0 then 0 else Cumulative(counts, i - 1) + counts[i - 1]
  }

  lemma {:induction false} UpToSplits(bounds: seq<real>, seen: seq<real>, i: nat)
    requires bounds != []
    ensures UpToSlot(bounds, seen, i) == InSlot(bounds, seen, i) + if i == 0 then 0 else UpToSlot(bounds, seen, i - 1)
  {
    if seen != [] {
      UpToSplits(bounds, seen[..|seen| - 1], i);
    }
  }

  lemma {:induction false} RunningSum(bounds: seq<real>, seen: seq<real>, counts: seq<nat>, i: nat)
    requires bounds != [] && i < |counts| && forall k :: 0 <= k < |counts| ==> counts[k] == InSlot(bounds, seen, k)
    ensures Cumulative(counts, i + 1) == UpToSlot(bounds, seen, i)
  {
    UpToSplits(bounds, seen, i);
    if i > 0 {
      RunningSum(bounds, seen, counts, i - 1);
    }
  }

  lemma {:induction false} UpToIsAtMost(bounds: seq<real>, seen: seq<real>, i: nat)
    requires StrictlyAscending(bounds) && i < |bounds| - 1
    ensures UpToSlot(bounds, seen, i) == AtMost(seen, bounds[i])
  {
    if seen != [] {
      var v := seen[|seen| - 1];
      UpToIsAtMost(bounds, seen[..|seen| - 1], i);
      assert Slot(bounds, v) <= i <==> v <= bounds[i];
    }
  }

  lemma {:induction false} UpToLast(bounds: seq<real>, seen: seq<real>)
    requires bounds != []
    ensures UpToSlot(bounds, seen, |bounds| - 1) == |seen|
  {
    if seen != [] {
      UpToLast(bounds, seen[..|seen| - 1]);
    }
  }

  function Sum(seen: seq<real>): real {
    if seen == [] then 0.0 else Sum(seen[..|seen| - 1]) + seen[|seen| - 1]
  }

  /** Every observation counts in the sum once, wherever it stands; and so it does under the bounds not below it. */
  lemma {:induction false} CountedOnce(a: seq<real>, v: real, b: seq<real>, bound: real)
    ensures Sum(a + [v] + b) == v + Sum(a + b)
    ensures AtMost(a + [v] + b, bound) == AtMost(a + b, bound) + if v <= bound then 1 else 0
    decreases |b|
  {
    if b == [] {
      assert a + b == a && a + [v] + b == a + [v] && (a + [v])[..|a|] == a;
    } else {
      var n := |b| - 1;
      CountedOnce(a, v, b[..n], bound);
      assert (a + [v] + b)[..|a + b|] == a + [v] + b[..n] && (a + b)[..|a| + n] == a + b[..n];
    }
  }

  // One _bucket line; no bound is +Inf.
  datatype Line = Line(le: Option<real>, count: nat)

  class PromHistogram {
    const upperBounds: seq<real>
    const counts: array<nat>
    var sum: real
    var total: nat
    ghost var seen: seq<real>

    /** One count per bucket, of the observations that went there. */
    ghost predicate Valid()
      reads this, counts
    {
      && upperBounds != [] && upperBounds[|upperBounds| - 1] == SENTINEL && counts.Length == |upperBounds|
      && total == |seen| && sum == Sum(seen)
      && forall i :: 0 <= i < counts.Length ==> counts[i] == InSlot(upperBounds, seen, i)
    }

    constructor (buckets: seq<real>)
      ensures Valid() && seen == [] && fresh(counts)
      ensures StrictlyAscending(upperBounds) <==> forall b :: b in buckets ==> b < SENTINEL
      ensures Elements(upperBounds[..|upperBounds| - 1]) == Elements(buckets)
    {
      var bounds := BuildBounds(buckets);
      upperBounds := bounds;
      counts := new nat[|bounds|](_ => 0);
      sum, total, seen := 0.0, 0, [];
    }

    method Observe(val: real)
      requires Valid()
      modifies this, counts
      ensures Valid() && seen == old(seen) + [val]
      ensures sum == old(sum) + val && total == old(total) + 1
    {
      sum := sum + val;
      total := total + 1;
      var i := 0;
      while i < |upperBounds| && val > upperBounds[i]
        invariant i <= |upperBounds| && forall k :: 0 <= k < i ==> val > upperBounds[k]
      {
        i := i + 1;
      }
      if i == |upperBounds| {
        i := i - 1;
      }
      assert i == Slot(upperBounds, val);
      counts[i] := counts[i] + 1;
      seen := seen + [val];
      assert seen[..|seen| - 1] == old(seen);
    }

    /** The bucket lines of writeTo, the _sum line and the _count line. */
    method WriteTo() returns (lines: seq<Line>, summed: real, count: nat)
      requires Valid()
      ensures summed == Sum(seen) && count == |seen| && |lines| == |upperBounds|
      ensures forall i :: 0 <= i < |lines| ==> (lines[i].le == None <==> upperBounds[i] >= SENTINEL)
      ensures forall i :: 0 <= i < |lines| && lines[i].le.Some? ==> lines[i].le.value == upperBounds[i]
      ensures forall i :: 0 <= i < |lines| ==> lines[i].count == UpToSlot(upperBounds, seen, i)
      ensures StrictlyAscending(upperBounds) ==>
        forall i :: 0 <= i < |lines| - 1 ==>
          lines[i].le == Some(upperBounds[i]) && lines[i].count == AtMost(seen, upperBounds[i])
      ensures lines[|lines| - 1] == Line(None, count)
    {
      lines := [];
      var cumCount := 0;
      for i := 0 to |upperBounds|
        invariant |lines| == i && cumCount == Cumulative(counts[..], i)
        invariant forall k :: 0 <= k < i ==>
          lines[k] == Line(if upperBounds[k] >= SENTINEL then None else Some(upperBounds[k]),
                           UpToSlot(upperBounds, seen, k))
      {
        cumCount := cumCount + counts[i];
        RunningSum(upperBounds, seen, counts[..], i);
        lines := lines + [Line(if upperBounds[i] >= SENTINEL then None else Some(upperBounds[i]), cumCount)];
      }
      UpToLast(upperBounds, seen);
      if StrictlyAscending(upperBounds) {
        forall i | 0 <= i < |lines| - 1 ensures lines[i].count == AtMost(seen, upperBounds[i]) {
          UpToIsAtMost(upperBounds, seen, i);
        }
      }
      summed, count := sum, total;
    }
  }
}
