/** Popping what is due from a heap ordered by trigger time, against filtering and sorting. */
module DueQueue {
  import opened ContainerHeap

  datatype Popped<T> = Popped(taken: seq<Keyed<T>>, dropped: seq<Keyed<T>>, rest: seq<Keyed<T>>)

  /** The loop of PopDue: up to `limit` entries due by the deadline are taken from the root; stale ones
      (no longer in JobRun status) are dropped on the way. */
  function PopDue<T(==)>(h: seq<Keyed<T>>, deadline: int, limit: int, stale: set<T>): Popped<T>
    decreases |h|
  {
    if h == [] || limit <= 0 || h[0].key > deadline then Popped([], [], h)
    else
      PopShrinks(h);
      if h[0].val in stale then
        var p := PopDue(PopRest(h), deadline, limit, stale);
        Popped(p.taken, [h[0]] + p.dropped, p.rest)
      else
        var p := PopDue(PopRest(h), deadline, limit - 1, stale);
        Popped([h[0]] + p.taken, p.dropped, p.rest)
  }

  ghost predicate Ascending(ks: seq<int>) {
    forall i, j :: 0 <= i < j < |ks| ==> ks[i] <= ks[j]
  }

  function Keys<T>(s: seq<Keyed<T>>): (ks: seq<int>)
    ensures |ks| == |s| && forall i :: 0 <= i < |s| ==> ks[i] == s[i].key
  {
    if s == [] then [] else [s[0].key] + Keys(s[1..])
  }

  // ---------- Nothing is lost, and what stays is later ----------

  lemma {:induction false} PopDueConserves<T>(h: seq<Keyed<T>>, deadline: int, limit: int, stale: set<T>)
    requires IsHeap(h)
    ensures var p := PopDue(h, deadline, limit, stale);
            IsHeap(p.rest) && multiset(h) == multiset(p.taken) + multiset(p.dropped) + multiset(p.rest)
    decreases |h|
  {
    if h != [] {
      PopHeap(h);
    }
    if h != [] && limit > 0 && h[0].key <= deadline {
      PopDueConserves(PopRest(h), deadline, if h[0].val in stale then limit else limit - 1, stale);
    }
  }

  lemma {:induction false} PopDueOrders<T>(h: seq<Keyed<T>>, deadline: int, limit: int, stale: set<T>)
    requires IsHeap(h)
    ensures var p := PopDue(h, deadline, limit, stale);
            && (forall e :: e in p.taken ==> e.key <= deadline && e.val !in stale)
            && (forall e :: e in p.dropped ==> e.key <= deadline && e.val in stale)
            && (forall e, r :: (e in p.taken || e in p.dropped) && r in p.rest ==> e.key <= r.key)
            && (|p.taken| < limit ==> forall r :: r in p.rest ==> r.key > deadline)
    decreases |h|
  {
    if h != [] {
      PopHeap(h);
    }
    if h != [] && limit > 0 && h[0].key <= deadline {
      PopDueOrders(PopRest(h), deadline, if h[0].val in stale then limit else limit - 1, stale);
      PopDueConserves(h, deadline, limit, stale);
      var p := PopDue(h, deadline, limit, stale);
      forall r | r in p.rest ensures h[0].key <= r.key {
        assert r in multiset(p.rest) && r in multiset(h);
      }
    }
  }

  ghost predicate NoneTwice<T>(s: seq<T>) {
    forall i, k :: 0 <= i < k < |s| ==> s[i] != s[k]
  }

  lemma AtMostOnce<T>(s: seq<T>, x: T)
    requires NoneTwice(s)
    ensures multiset(s)[x] <= 1
  {
    if i :| 0 <= i < |s| && s[i] == x {
      assert s == s[..i] + [x] + s[i + 1..];
      assert x !in s[..i] && x !in s[i + 1..];
    }
  }

  lemma TwiceCounts<T>(s: seq<T>, i: nat, k: nat)
    requires i < k < |s|
    ensures s[i] == s[k] ==> multiset(s)[s[i]] >= 2
  {
    assert s == s[..i] + [s[i]] + s[i + 1..k] + [s[k]] + s[k + 1..];
  }

  // A list that has nothing twice falls into parts that share nothing.
  lemma PartsApart<T>(whole: seq<T>, a: seq<T>, b: seq<T>, c: seq<T>)
    requires NoneTwice(whole) && multiset(whole) == multiset(a) + multiset(b) + multiset(c)
    ensures forall x :: x in whole <==> x in a || x in b || x in c
    ensures forall x :: x in a ==> x !in b && x !in c
    ensures NoneTwice(a)
  {
    forall x ensures (x in whole <==> x in a || x in b || x in c) && (x in a ==> x !in b && x !in c) {
      PartsOf(whole, a, b, c, x);
    }
    forall i, k | 0 <= i < k < |a| ensures a[i] != a[k] {
      TwiceCounts(a, i, k);
      AtMostOnce(whole, a[i]);
    }
  }

  lemma PartsOf<T>(whole: seq<T>, a: seq<T>, b: seq<T>, c: seq<T>, x: T)
    requires NoneTwice(whole) && multiset(whole) == multiset(a) + multiset(b) + multiset(c)
    ensures x in whole <==> x in a || x in b || x in c
    ensures x in a ==> x !in b && x !in c
  {
    AtMostOnce(whole, x);
    assert multiset(whole)[x] == multiset(a)[x] + multiset(b)[x] + multiset(c)[x];
    assert (x in multiset(whole) <==> x in whole) && (x in multiset(a) <==> x in a);
    assert (x in multiset(b) <==> x in b) && (x in multiset(c) <==> x in c);
  }

  // ---------- Filter, then sort, then cut ----------

  /** The trigger times of the entries that are due and not stale, in the order of the list. */
  function DueKeys<T(==)>(s: seq<Keyed<T>>, deadline: int, stale: set<T>): seq<int> {
    if s == [] then []
    else (if s[0].key <= deadline && s[0].val !in stale then [s[0].key] else []) + DueKeys(s[1..], deadline, stale)
  }

  lemma {:induction false} DueKeysConcat<T>(a: seq<Keyed<T>>, b: seq<Keyed<T>>, deadline: int, stale: set<T>)
    ensures DueKeys(a + b, deadline, stale) == DueKeys(a, deadline, stale) + DueKeys(b, deadline, stale)
  {
    if a == [] {
      assert a + b == b;
    } else {
      assert (a + b)[1..] == a[1..] + b;
      DueKeysConcat(a[1..], b, deadline, stale);
    }
  }

  // Rearranging the list rearranges its due times.
  lemma {:induction false} DueKeysPermuted<T>(a: seq<Keyed<T>>, b: seq<Keyed<T>>, deadline: int, stale: set<T>)
    requires multiset(a) == multiset(b)
    ensures multiset(DueKeys(a, deadline, stale)) == multiset(DueKeys(b, deadline, stale))
  {
    if a == [] {
      assert |multiset(a)| == |multiset(b)| == |b|;
    } else {
      assert a[0] in multiset(b);
      var k :| 0 <= k < |b| && b[k] == a[0];
      var c := b[..k] + b[k + 1..];
      assert a == [a[0]] + a[1..];
      assert b == b[..k] + [b[k]] + b[k + 1..];
      assert multiset(a) == multiset{a[0]} + multiset(a[1..]);
      assert multiset(b) == multiset(b[..k]) + multiset{b[k]} + multiset(b[k + 1..]);
      assert multiset(c) == multiset(b) - multiset{b[k]};
      DueKeysPermuted(a[1..], c, deadline, stale);
      DueKeysConcat(b[..k], b[k + 1..], deadline, stale);
      DueKeysConcat(b[..k] + [b[k]], b[k + 1..], deadline, stale);
      DueKeysConcat(b[..k], [b[k]], deadline, stale);
      DueKeysConcat([a[0]], a[1..], deadline, stale);
    }
  }

  function Min(a: int, b: int): int {
    if a < b then a else b
  }

  /** The entries in the order in which popping everything yields them. */
  function PopOrder<T>(h: seq<Keyed<T>>): seq<Keyed<T>>
    decreases |h|
  {
    if h == [] then []
    else
      PopShrinks(h);
      [h[0]] + PopOrder(PopRest(h))
  }

  ghost predicate Sorted<T>(l: seq<Keyed<T>>) {
    forall i, j :: 0 <= i < j < |l| ==> l[i].key <= l[j].key
  }

  lemma {:induction false} PopOrderKeeps<T>(h: seq<Keyed<T>>)
    requires IsHeap(h)
    ensures multiset(PopOrder(h)) == multiset(h)
    decreases |h|
  {
    if h != [] {
      PopHeap(h);
      PopOrderKeeps(PopRest(h));
    }
  }

  lemma {:induction false} PopOrderSorted<T>(h: seq<Keyed<T>>)
    requires IsHeap(h)
    ensures Sorted(PopOrder(h))
    decreases |h|
  {
    if h != [] {
      PopHeap(h);
      PopOrderSorted(PopRest(h));
      PopOrderKeeps(PopRest(h));
      var l := PopOrder(PopRest(h));
      forall i | 0 <= i < |l| ensures h[0].key <= l[i].key {
        assert l[i] in multiset(l) && l[i] in multiset(h);
      }
    }
  }

  // PopDue read off the pop order.
  function Walk<T(==)>(l: seq<Keyed<T>>, deadline: int, limit: int, stale: set<T>): seq<Keyed<T>> {
    if l == [] || limit <= 0 || l[0].key > deadline then []
    else if l[0].val in stale then Walk(l[1..], deadline, limit, stale)
    else [l[0]] + Walk(l[1..], deadline, limit - 1, stale)
  }

  lemma {:induction false} PopDueWalks<T>(h: seq<Keyed<T>>, deadline: int, limit: int, stale: set<T>)
    ensures PopDue(h, deadline, limit, stale).taken == Walk(PopOrder(h), deadline, limit, stale)
    decreases |h|
  {
    if h != [] {
      PopShrinks(h);
      var l := PopOrder(PopRest(h));
      assert PopOrder(h) == [h[0]] + l && ([h[0]] + l)[1..] == l;
      PopDueWalks(PopRest(h), deadline, if h[0].val in stale then limit else limit - 1, stale);
    }
  }

  lemma {:induction false} WalkTakesFirst<T>(l: seq<Keyed<T>>, deadline: int, limit: int, stale: set<T>)
    requires Sorted(l) && limit >= 0
    ensures var d := DueKeys(l, deadline, stale); Keys(Walk(l, deadline, limit, stale)) == d[..Min(limit, |d|)]
  {
    if l != [] {
      if l[0].key > deadline {
        NothingDue(l, deadline, stale);
      } else if limit > 0 {
        WalkTakesFirst(l[1..], deadline, if l[0].val in stale then limit else limit - 1, stale);
        var w := Walk(l[1..], deadline, limit - 1, stale);
        assert ([l[0]] + w)[1..] == w;
      }
    }
  }

  lemma {:induction false} NothingDue<T>(l: seq<Keyed<T>>, deadline: int, stale: set<T>)
    requires Sorted(l) && (l != [] ==> l[0].key > deadline)
    ensures DueKeys(l, deadline, stale) == []
  {
    if l != [] {
      NothingDue(l[1..], deadline, stale);
    }
  }

  lemma {:induction false} DueKeysAscend<T>(l: seq<Keyed<T>>, deadline: int, stale: set<T>)
    requires Sorted(l)
    ensures Ascending(DueKeys(l, deadline, stale))
    ensures forall k :: k in DueKeys(l, deadline, stale) ==> l[0].key <= k
  {
    if l != [] {
      var rest := DueKeys(l[1..], deadline, stale);
      DueKeysAscend(l[1..], deadline, stale);
      forall i | 0 <= i < |rest| ensures l[0].key <= rest[i] {
        assert rest[i] in rest && l[1..][0] == l[1];
      }
      var first := if l[0].key <= deadline && l[0].val !in stale then [l[0].key] else [];
      assert DueKeys(l, deadline, stale) == first + rest;
      forall k | k in first + rest ensures l[0].key <= k {
        assert k in first || k in rest;
      }
    }
  }

  lemma LeastFirst(a: seq<int>, b: seq<int>)
    requires Ascending(b) && multiset(a) == multiset(b) && a != [] && b != []
    ensures b[0] <= a[0]
  {
    assert a[0] in multiset(b);
  }

  lemma SameTails(a: seq<int>, b: seq<int>)
    requires a != [] && b != [] && a[0] == b[0] && multiset(a) == multiset(b)
    ensures multiset(a[1..]) == multiset(b[1..])
  {
    assert a == [a[0]] + a[1..] && b == [b[0]] + b[1..];
    assert multiset(a[1..]) == multiset(a) - multiset{a[0]};
    assert multiset(b[1..]) == multiset(b) - multiset{b[0]};
  }

  // There is only one ascending arrangement of a bag of times.
  lemma {:induction false} AscendingUnique(a: seq<int>, b: seq<int>)
    requires Ascending(a) && Ascending(b) && multiset(a) == multiset(b)
    ensures a == b
  {
    assert |multiset(a)| == |a| && |multiset(b)| == |b|;
    if a != [] {
      LeastFirst(a, b);
      LeastFirst(b, a);
      SameTails(a, b);
      AscendingUnique(a[1..], b[1..]);
      assert a == [a[0]] + a[1..] && b == [b[0]] + b[1..];
    }
  }

  /** PopDue is filter-then-sort-then-cut: whatever ascending arrangement `sorted` of the due times one takes,
      the times popped are its first `limit`. */
  lemma PopDueRefinesSort<T>(h: seq<Keyed<T>>, deadline: int, limit: int, stale: set<T>, sorted: seq<int>)
    requires IsHeap(h) && limit >= 0
    requires Ascending(sorted) && multiset(sorted) == multiset(DueKeys(h, deadline, stale))
    ensures Keys(PopDue(h, deadline, limit, stale).taken) == sorted[..Min(limit, |sorted|)]
  {
    var l := PopOrder(h);
    PopOrderKeeps(h);
    PopOrderSorted(h);
    DueKeysPermuted(l, h, deadline, stale);
    DueKeysAscend(l, deadline, stale);
    AscendingUnique(sorted, DueKeys(l, deadline, stale));
    PopDueWalks(h, deadline, limit, stale);
    WalkTakesFirst(l, deadline, limit, stale);
  }

  // What is popped comes in ascending order of trigger time.
  lemma PopDueAscends<T>(h: seq<Keyed<T>>, deadline: int, limit: int, stale: set<T>)
    requires IsHeap(h)
    ensures Ascending(Keys(PopDue(h, deadline, limit, stale).taken))
  {
    if limit >= 0 {
      var sorted := DueKeys(PopOrder(h), deadline, stale);
      PopOrderKeeps(h);
      PopOrderSorted(h);
      DueKeysPermuted(PopOrder(h), h, deadline, stale);
      DueKeysAscend(PopOrder(h), deadline, stale);
      PopDueRefinesSort(h, deadline, limit, stale, sorted);
    }
  }

  lemma {:induction false} PopDueLimit<T>(h: seq<Keyed<T>>, deadline: int, limit: int, stale: set<T>)
    ensures |PopDue(h, deadline, limit, stale).taken| <= if limit > 0 then limit else 0
    decreases |h|
  {
    if h != [] && limit > 0 && h[0].key <= deadline {
      PopShrinks(h);
      PopDueLimit(PopRest(h), deadline, if h[0].val in stale then limit else limit - 1, stale);
    }
  }
}
