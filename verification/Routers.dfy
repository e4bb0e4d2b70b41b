/** Round-robin, least-frequently-used and least-recently-used routing: three ways of keeping state, one
    specification. */
module Routers {
  import opened Basics

  // A missing map entry reads as zero: no use yet, or the zero time.
  function Get(m: map<string, int>, key: string): int {
    if key in m then m[key] else 0
  }

  function Values(m: map<string, int>, addresses: seq<string>): (vs: seq<int>)
    ensures |vs| == |addresses| && forall i :: 0 <= i < |vs| ==> vs[i] == Get(m, addresses[i])
  {
    seq(|addresses|, i requires 0 <= i < |addresses| => Get(m, addresses[i]))
  }

  // The first position of the least value.
  ghost predicate IsFirstMin(vs: seq<int>, k: nat) {
    && k < |vs|
    && (forall i :: 0 <= i < |vs| ==> vs[k] <= vs[i])
    && (forall i :: 0 <= i < k ==> vs[k] < vs[i])
  }

  lemma FirstMinUnique(vs: seq<int>, j: nat, k: nat)
    requires IsFirstMin(vs, j) && IsFirstMin(vs, k)
    ensures j == k
  {
    assert vs[j] == vs[k];
  }

  /** The scan that LFU and LRU share: start with the first address, move on when a later one is strictly less. */
  method Least(m: map<string, int>, addresses: seq<string>) returns (k: nat)
    requires addresses != []
    ensures IsFirstMin(Values(m, addresses), k)
  {
    k := 0;
    var least := Get(m, addresses[0]);
    for i := 1 to |addresses|
      invariant k < i && least == Get(m, addresses[k])
      invariant forall j :: 0 <= j < i ==> least <= Get(m, addresses[j])
      invariant forall j :: 0 <= j < k ==> least < Get(m, addresses[j])
    {
      if Get(m, addresses[i]) < least {
        k, least := i, Get(m, addresses[i]);
      }
    }
  }

  // ---------- The routers ----------

  /** listHash stands for any function of the address list. */
  class RoundRobinRouter {
    const listHash: seq<string> -> string
    var counter: map<string, int>

    constructor (listHash: seq<string> -> string)
      ensures this.listHash == listHash && counter == map[]
    {
      this.listHash, counter := listHash, map[];
    }

    method Route(addresses: seq<string>) returns (address: Option<string>)
      requires forall key :: key in counter ==> counter[key] >= 0
      modifies this
      ensures forall key :: key in counter ==> counter[key] >= 0
      ensures address.None? <==> addresses == []
      ensures addresses == [] ==> counter == old(counter)
      ensures addresses != [] ==> var key := listHash(addresses);
        && address.value == addresses[Get(old(counter), key) % |addresses|]
        && counter == old(counter)[key := Get(old(counter), key) + 1]
    {
      if addresses == [] {
        return None;
      }
      var key := listHash(addresses);
      var idx := Get(counter, key) % |addresses|;
      counter := counter[key := Get(counter, key) + 1];
      return Some(addresses[idx]);
    }
  }

  class LfuRouter {
    var count: map<string, int>

    constructor ()
      ensures count == map[]
    {
      count := map[];
    }

    method Route(addresses: seq<string>) returns (address: Option<string>, ghost k: nat)
      modifies this
      ensures address.None? <==> addresses == []
      ensures addresses == [] ==> count == old(count)
      ensures addresses != [] ==> IsFirstMin(Values(old(count), addresses), k) && address == Some(addresses[k])
      ensures addresses != [] ==> count == Bumped(old(count), addresses[k])
    {
      k := 0;
      if addresses == [] {
        return None, 0;
      }
      var least := Least(count, addresses);
      count := Bumped(count, addresses[least]);
      return Some(addresses[least]), least;
    }
  }

  class LruRouter {
    var lastUsed: map<string, int>

    constructor ()
      ensures lastUsed == map[]
    {
      lastUsed := map[];
    }

    method Route(addresses: seq<string>, now: int) returns (address: Option<string>, ghost k: nat)
      modifies this
      ensures address.None? <==> addresses == []
      ensures addresses == [] ==> lastUsed == old(lastUsed)
      ensures addresses != [] ==> IsFirstMin(Values(old(lastUsed), addresses), k) && address == Some(addresses[k])
      ensures addresses != [] ==> lastUsed == old(lastUsed)[addresses[k] := now]
    {
      k := 0;
      if addresses == [] {
        return None, 0;
      }
      var least := Least(lastUsed, addresses);
      lastUsed := lastUsed[addresses[least] := now];
      return Some(addresses[least]), least;
    }
  }

  function Bumped(count: map<string, int>, address: string): map<string, int> {
    count[address := Get(count, address) + 1]
  }

  // ---------- One specification ----------

  ghost predicate Addresses(a: seq<string>) {
    a != [] && forall i, k :: 0 <= i < k < |a| ==> a[i] != a[k]
  }

  // How often position j is chosen by m calls in rotation.
  function Turns(m: nat, n: nat, j: nat): nat
    requires j < n
  {
    m / n + if j < m % n then 1 else 0
  }

  lemma NextTurn(m: nat, n: nat, j: nat)
    requires j < n
    ensures Turns(m + 1, n, j) == Turns(m, n, j) + if j == m % n then 1 else 0
    ensures (m + 1) % n == if m % n + 1 == n then 0 else m % n + 1
  {
    var q, r := m / n, m % n;
    assert m == n * q + r;
    if r + 1 == n {
      assert m + 1 == n * (q + 1);
      DivMod(m + 1, n, q + 1, 0);
    } else {
      DivMod(m + 1, n, q, r + 1);
    }
  }

  lemma DivMod(m: nat, n: nat, q: nat, r: nat)
    requires r < n && m == n * q + r
    ensures m / n == q && m % n == r
  {
    TimesGrows(n, m / n + 1, q);
    TimesGrows(n, q + 1, m / n);
  }

  // Call i goes to position i mod n.
  ghost predicate Rotation(picks: seq<nat>, n: nat)
    requires n > 0
  {
    forall i :: 0 <= i < |picks| ==> picks[i] == i % n
  }

  /** In rotation every position is chosen floor(m/n) or ceil(m/n) times by m calls. */
  lemma {:induction false} FairShare(picks: seq<nat>, n: nat, j: nat)
    requires n > 0 && Rotation(picks, n) && j < n
    ensures multiset(picks)[j] == Turns(|picks|, n, j)
    ensures multiset(picks)[j] == |picks| / n || (|picks| % n != 0 && multiset(picks)[j] == |picks| / n + 1)
    decreases |picks|
  {
    if picks != [] {
      var m := |picks| - 1;
      FairShare(picks[..m], n, j);
      NextTurn(m, n, j);
      assert picks == picks[..m] + [picks[m]];
    } else {
      DivMod(0, n, 0, 0);
    }
  }

  /** A run of calls on one address list, from the fresh state: the picks and the states between them. */
  ghost predicate RoundRobinRun(a: seq<string>, key: string, picks: seq<nat>, states: seq<map<string, int>>) {
    && |states| == |picks| + 1 && states[0] == map[]
    && forall i :: 0 <= i < |picks| ==> RoundRobinStep(a, key, states[i], picks[i], states[i + 1])
  }

  ghost predicate RoundRobinStep(a: seq<string>, key: string, m: map<string, int>, k: nat, m': map<string, int>) {
    a != [] && k == Get(m, key) % |a| && m' == m[key := Get(m, key) + 1]
  }

  ghost predicate LfuRun(a: seq<string>, picks: seq<nat>, states: seq<map<string, int>>) {
    && |states| == |picks| + 1 && states[0] == map[]
    && forall i :: 0 <= i < |picks| ==> LfuStep(a, states[i], picks[i], states[i + 1])
  }

  ghost predicate LfuStep(a: seq<string>, m: map<string, int>, k: nat, m': map<string, int>) {
    IsFirstMin(Values(m, a), k) && m' == Bumped(m, a[k])
  }

  ghost predicate LruRun(a: seq<string>, times: seq<int>, picks: seq<nat>, states: seq<map<string, int>>) {
    && |states| == |picks| + 1 && states[0] == map[] && |times| == |picks|
    && forall i :: 0 <= i < |picks| ==> LruStep(a, states[i], picks[i], times[i], states[i + 1])
  }

  ghost predicate LruStep(a: seq<string>, m: map<string, int>, k: nat, now: int, m': map<string, int>) {
    IsFirstMin(Values(m, a), k) && m' == m[a[k] := now]
  }

  lemma {:induction false} RoundRobinCounts(a: seq<string>, key: string, picks: seq<nat>,
                                            states: seq<map<string, int>>, i: nat)
    requires RoundRobinRun(a, key, picks, states) && i <= |picks|
    ensures Get(states[i], key) == i
    decreases i
  {
    if i > 0 {
      RoundRobinCounts(a, key, picks, states, i - 1);
      assert RoundRobinStep(a, key, states[i - 1], picks[i - 1], states[i - 1 + 1]);
    }
  }

  lemma RoundRobinRotates(a: seq<string>, key: string, picks: seq<nat>, states: seq<map<string, int>>)
    requires a != [] && RoundRobinRun(a, key, picks, states)
    ensures Rotation(picks, |a|)
  {
    forall i | 0 <= i < |picks| ensures picks[i] == i % |a| {
      RoundRobinCounts(a, key, picks, states, i);
      assert RoundRobinStep(a, key, states[i], picks[i], states[i + 1]);
    }
  }

  // The first least of a rotation's counts is where the rotation stands.
  lemma LfuStands(a: seq<string>, m: map<string, int>, i: nat, k: nat)
    requires Addresses(a) && IsFirstMin(Values(m, a), k)
    requires forall j :: 0 <= j < |a| ==> Get(m, a[j]) == Turns(i, |a|, j)
    ensures k == i % |a|
  {
    assert IsFirstMin(Values(m, a), i % |a|);
    FirstMinUnique(Values(m, a), k, i % |a|);
  }

  lemma {:induction false} LfuCounts(a: seq<string>, picks: seq<nat>, states: seq<map<string, int>>, i: nat)
    requires Addresses(a) && LfuRun(a, picks, states) && i <= |picks|
    ensures forall j :: 0 <= j < |a| ==> Get(states[i], a[j]) == Turns(i, |a|, j)
    decreases i
  {
    if i == 0 {
      DivMod(0, |a|, 0, 0);
    } else {
      LfuCounts(a, picks, states, i - 1);
      assert LfuStep(a, states[i - 1], picks[i - 1], states[i - 1 + 1]);
      LfuStands(a, states[i - 1], i - 1, picks[i - 1]);
      forall j | 0 <= j < |a| ensures Get(states[i], a[j]) == Turns(i, |a|, j) {
        NextTurn(i - 1, |a|, j);
      }
    }
  }

  lemma LfuRotates(a: seq<string>, picks: seq<nat>, states: seq<map<string, int>>)
    requires Addresses(a) && LfuRun(a, picks, states)
    ensures Rotation(picks, |a|)
  {
    forall i | 0 <= i < |picks| ensures picks[i] == i % |a| {
      LfuCounts(a, picks, states, i);
      assert LfuStep(a, states[i], picks[i], states[i + 1]);
      LfuStands(a, states[i], i, picks[i]);
    }
  }

  // The last call before call i that went to position j, in rotation; negative if there was none.
  function LastCall(i: nat, n: nat, j: nat): int
    requires j < n
  {
    i - i % n + j - if j < i % n then 0 else n
  }

  lemma NextLastCall(i: nat, n: nat, j: nat)
    requires j < n
    ensures LastCall(i, n, j) < i
    ensures LastCall(i + 1, n, j) == if j == i % n then i else LastCall(i, n, j)
  {
    NextTurn(i, n, j);
  }

  ghost predicate Later(times: seq<int>) {
    && (forall i :: 0 <= i < |times| ==> times[i] > 0)
    && (forall i, k :: 0 <= i < k < |times| ==> times[i] < times[k])
  }

  ghost predicate UsedAt(m: map<string, int>, address: string, times: seq<int>, call: int)
    requires call < |times|
  {
    Get(m, address) == if call < 0 then 0 else times[call]
  }

  lemma LruStands(a: seq<string>, m: map<string, int>, times: seq<int>, i: nat, k: nat)
    requires Addresses(a) && Later(times) && i <= |times| && IsFirstMin(Values(m, a), k)
    requires forall j :: 0 <= j < |a| ==> LastCall(i, |a|, j) < |times| && UsedAt(m, a[j], times, LastCall(i, |a|, j))
    ensures k == i % |a|
  {
    var n, r := |a|, i % |a|;
    assert LastCall(i, n, r) == i - n && UsedAt(m, a[r], times, i - n);
    forall j | 0 <= j < n ensures Get(m, a[r]) <= Get(m, a[j]) && (j < r ==> Get(m, a[r]) < Get(m, a[j])) {
      assert UsedAt(m, a[j], times, LastCall(i, n, j));
      if i < n {
        DivMod(i, n, 0, i);
      }
    }
    assert IsFirstMin(Values(m, a), r);
    FirstMinUnique(Values(m, a), k, r);
  }

  lemma {:induction false} LruTimes(a: seq<string>, times: seq<int>, picks: seq<nat>,
                                    states: seq<map<string, int>>, i: nat)
    requires Addresses(a) && Later(times) && LruRun(a, times, picks, states) && i <= |picks|
    ensures forall j :: 0 <= j < |a| ==>
      LastCall(i, |a|, j) < |times| && UsedAt(states[i], a[j], times, LastCall(i, |a|, j))
    decreases i
  {
    if i == 0 {
      DivMod(0, |a|, 0, 0);
    } else {
      LruTimes(a, times, picks, states, i - 1);
      assert LruStep(a, states[i - 1], picks[i - 1], times[i - 1], states[i - 1 + 1]);
      LruStands(a, states[i - 1], times, i - 1, picks[i - 1]);
      forall j | 0 <= j < |a|
        ensures LastCall(i, |a|, j) < |times| && UsedAt(states[i], a[j], times, LastCall(i, |a|, j))
      {
        NextLastCall(i - 1, |a|, j);
        assert UsedAt(states[i - 1], a[j], times, LastCall(i - 1, |a|, j));
      }
    }
  }

  lemma LruRotates(a: seq<string>, times: seq<int>, picks: seq<nat>, states: seq<map<string, int>>)
    requires Addresses(a) && Later(times) && LruRun(a, times, picks, states)
    ensures Rotation(picks, |a|)
  {
    forall i | 0 <= i < |picks| ensures picks[i] == i % |a| {
      LruTimes(a, times, picks, states, i);
      assert LruStep(a, states[i], picks[i], times[i], states[i + 1]);
      LruStands(a, states[i], times, i, picks[i]);
    }
  }
}
