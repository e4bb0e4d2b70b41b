/** Go's container/heap, as the job store and the time wheel's overflow heap use it.

    A heap is a sequence of keyed values; entry `j` hangs below entry `(j-1)/2`.  The functions follow
    the library's sift loops step for step, and the lemmas say what every operation keeps: the heap
    order, the multiset of entries, and the fact that the popped entry has the least key. */
module ContainerHeap {

  datatype Keyed<T> = Keyed(key: int, val: T)

  // Go divides towards zero, so the parent of the root is the root itself.
  function Parent(j: nat): nat {
    if j == 0 then 0 else (j - 1) / 2
  }

  ghost predicate Edge<T>(h: seq<Keyed<T>>, j: nat)
    requires j < |h|
  {
    h[Parent(j)].key <= h[j].key
  }

  // The first n entries are in heap order.
  ghost predicate HeapTo<T>(h: seq<Keyed<T>>, n: nat)
    requires n <= |h|
  {
    forall j {:trigger Edge(h, j)} :: 0 < j < n ==> Edge(h, j)
  }

  ghost predicate IsHeap<T>(h: seq<Keyed<T>>) {
    HeapTo(h, |h|)
  }

  // Heap order except at the edges that touch entry i; the parent of i still bounds the children of i.
  ghost predicate HeapExcept<T>(h: seq<Keyed<T>>, n: nat, i: nat)
    requires n <= |h|
  {
    && (forall j {:trigger Edge(h, j)} :: 0 < j < n && j != i && Parent(j) != i ==> Edge(h, j))
    && (forall j {:trigger Parent(j)} :: 0 < j < n && Parent(j) == i && 0 < i < n ==> h[Parent(i)].key <= h[j].key)
  }

  ghost predicate ChildEdges<T>(h: seq<Keyed<T>>, n: nat, i: nat)
    requires n <= |h|
  {
    forall j {:trigger Edge(h, j)} :: 0 < j < n && Parent(j) == i ==> Edge(h, j)
  }

  function Swap<T>(h: seq<Keyed<T>>, i: nat, j: nat): (r: seq<Keyed<T>>)
    requires i < |h| && j < |h|
  {
    h[i := h[j]][j := h[i]]
  }

  function Up<T>(h: seq<Keyed<T>>, j: nat): seq<Keyed<T>>
    requires j < |h|
    decreases j
  {
    if j == 0 || h[j].key >= h[Parent(j)].key then h else Up(Swap(h, Parent(j), j), Parent(j))
  }

  // The child that `down` compares with: the right one only if it is strictly smaller.
  function MinChild<T>(h: seq<Keyed<T>>, i: nat, n: nat): (c: nat)
    requires 2 * i + 1 < n <= |h|
  {
    if 2 * i + 2 < n && h[2 * i + 2].key < h[2 * i + 1].key then 2 * i + 2 else 2 * i + 1
  }

  function Down<T>(h: seq<Keyed<T>>, i: nat, n: nat): seq<Keyed<T>>
    requires n <= |h|
    decreases n - i
  {
    if 2 * i + 1 >= n then h
    else
      var c := MinChild(h, i, n);
      if h[c].key >= h[i].key then h else Down(Swap(h, i, c), c, n)
  }

  // Where the entry that started at i ends up; `down` reports whether that is below i.
  function DownEnd<T>(h: seq<Keyed<T>>, i: nat, n: nat): nat
    requires n <= |h|
    decreases n - i
  {
    if 2 * i + 1 >= n then i
    else
      var c := MinChild(h, i, n);
      if h[c].key >= h[i].key then i else DownEnd(Swap(h, i, c), c, n)
  }

  function Push<T>(h: seq<Keyed<T>>, x: Keyed<T>): seq<Keyed<T>> {
    Up(h + [x], |h|)
  }

  function Repair<T>(h: seq<Keyed<T>>, i: nat, n: nat): seq<Keyed<T>>
    requires i < |h| && n <= |h|
  {
    if DownEnd(h, i, n) > i then Down(h, i, n) else Up(h, i)
  }

  function Fix<T>(h: seq<Keyed<T>>, i: nat): seq<Keyed<T>>
    requires i < |h|
  {
    Repair(h, i, |h|)
  }

  // What is left after the root has been popped.
  function PopRest<T>(h: seq<Keyed<T>>): seq<Keyed<T>>
    requires h != []
  {
    var n := |h| - 1;
    var d := Down(Swap(h, 0, n), 0, n);
    SizeDown(Swap(h, 0, n), 0, n);
    d[..n]
  }

  // What is left after the entry at i has been removed.
  function Remove<T>(h: seq<Keyed<T>>, i: nat): seq<Keyed<T>>
    requires i < |h|
  {
    var n := |h| - 1;
    if n == i then h[..n]
    else
      var r := Repair(Swap(h, i, n), i, n);
      SizeRepair(Swap(h, i, n), i, n);
      r[..n]
  }

  // ---------- Sifting keeps the entries ----------

  lemma SwapKeeps<T>(h: seq<Keyed<T>>, i: nat, j: nat)
    requires i < |h| && j < |h|
    ensures multiset(Swap(h, i, j)) == multiset(h)
  {
  }

  lemma {:induction false} SizeUp<T>(h: seq<Keyed<T>>, j: nat)
    requires j < |h|
    ensures |Up(h, j)| == |h| && multiset(Up(h, j)) == multiset(h)
    ensures forall k :: j < k < |h| ==> Up(h, j)[k] == h[k]
    decreases j
  {
    if j > 0 && h[j].key < h[Parent(j)].key {
      SwapKeeps(h, Parent(j), j);
      SizeUp(Swap(h, Parent(j), j), Parent(j));
    }
  }

  lemma {:induction false} SizeDown<T>(h: seq<Keyed<T>>, i: nat, n: nat)
    requires n <= |h|
    ensures |Down(h, i, n)| == |h| && multiset(Down(h, i, n)) == multiset(h)
    ensures forall k :: n <= k < |h| ==> Down(h, i, n)[k] == h[k]
    decreases n - i
  {
    if 2 * i + 1 < n {
      var c := MinChild(h, i, n);
      if h[c].key < h[i].key {
        SwapKeeps(h, i, c);
        SizeDown(Swap(h, i, c), c, n);
      }
    }
  }

  lemma SizeRepair<T>(h: seq<Keyed<T>>, i: nat, n: nat)
    requires i < |h| && n <= |h|
    ensures |Repair(h, i, n)| == |h| && multiset(Repair(h, i, n)) == multiset(h)
    ensures i < n ==> forall k :: n <= k < |h| ==> Repair(h, i, n)[k] == h[k]
  {
    SizeDown(h, i, n);
    SizeUp(h, i);
  }

  // ---------- Sifting restores the order ----------

  lemma {:induction false} UpRestores<T>(h: seq<Keyed<T>>, j: nat, n: nat)
    requires j < n <= |h|
    requires HeapExcept(h, n, j) && ChildEdges(h, n, j)
    ensures |Up(h, j)| == |h| && HeapTo(Up(h, j), n)
    decreases j
  {
    if j == 0 || h[j].key >= h[Parent(j)].key {
      forall k | 0 < k < n ensures Edge(h, k) {
      }
    } else {
      var p := Parent(j);
      var s := Swap(h, p, j);
      forall k | 0 < k < n && k != p && Parent(k) != p ensures Edge(s, k) {
        assert Parent(k) == j || Edge(h, k);
        assert Parent(k) == j ==> Edge(h, k) && h[Parent(j)].key <= h[k].key;
      }
      forall k | 0 < k < n && Parent(k) == p ensures Edge(s, k) {
        assert k == j || Edge(h, k);
      }
      if p > 0 {
        assert Edge(h, p);
        forall k | 0 < k < n && Parent(k) == p ensures s[Parent(p)].key <= s[k].key {
          assert k == j || Edge(h, k);
        }
      }
      UpRestores(s, p, n);
    }
  }

  // Once the edge above i is in order, sifting i down ends in a heap.
  lemma {:induction false} DownRestores<T>(h: seq<Keyed<T>>, i: nat, n: nat)
    requires i < n <= |h|
    requires HeapExcept(h, n, i) && (i > 0 ==> Edge(h, i))
    ensures |Down(h, i, n)| == |h| && HeapTo(Down(h, i, n), n)
    decreases n - i
  {
    if 2 * i + 1 >= n {
      forall k | 0 < k < n ensures Edge(h, k) {
      }
    } else {
      var c := MinChild(h, i, n);
      if h[c].key >= h[i].key {
        forall k | 0 < k < n ensures Edge(h, k) {
          assert Parent(k) == i ==> k == 2 * i + 1 || k == 2 * i + 2;
        }
      } else {
        SwapDownStep(h, i, n);
        DownRestores(Swap(h, i, c), c, n);
      }
    }
  }

  // One step of `down` moves the hole from i to the smaller child and settles the edge above i.
  lemma SwapDownStep<T>(h: seq<Keyed<T>>, i: nat, n: nat)
    requires 2 * i + 1 < n <= |h|
    requires HeapExcept(h, n, i)
    requires h[MinChild(h, i, n)].key < h[i].key
    ensures var c := MinChild(h, i, n); var s := Swap(h, i, c);
            HeapExcept(s, n, c) && Edge(s, c) && (i > 0 ==> Edge(s, i))
  {
    var c := MinChild(h, i, n);
    var s := Swap(h, i, c);
    assert Parent(c) == i;
    forall k | 0 < k < n && k != c && Parent(k) != c ensures Edge(s, k) {
      if Parent(k) == i {
        assert k == 2 * i + 1 || k == 2 * i + 2;
      } else if k != i {
        assert Edge(h, k);
      }
    }
    forall k | 0 < k < n && Parent(k) == c ensures s[Parent(c)].key <= s[k].key {
      assert k != i && Parent(k) != i;
      assert Edge(h, k);
    }
  }

  // Changing the key at i and then repairing there gives a heap again, whichever way the entry moves.
  lemma RepairRestores<T>(h: seq<Keyed<T>>, i: nat, n: nat)
    requires i < n <= |h|
    requires HeapExcept(h, n, i)
    ensures |Repair(h, i, n)| == |h| && HeapTo(Repair(h, i, n), n)
  {
    SizeRepair(h, i, n);
    if 2 * i + 1 >= n {
      UpRestores(h, i, n);
    } else {
      var c := MinChild(h, i, n);
      if h[c].key >= h[i].key {
        forall k | 0 < k < n && Parent(k) == i ensures Edge(h, k) {
          assert k == 2 * i + 1 || k == 2 * i + 2;
        }
        UpRestores(h, i, n);
      } else {
        SwapDownStep(h, i, n);
        DownRestores(Swap(h, i, c), c, n);
        DownEndBelow(Swap(h, i, c), c, n);
      }
    }
  }

  lemma {:induction false} DownEndBelow<T>(h: seq<Keyed<T>>, i: nat, n: nat)
    requires n <= |h|
    ensures DownEnd(h, i, n) >= i
    decreases n - i
  {
    if 2 * i + 1 < n {
      var c := MinChild(h, i, n);
      if h[c].key < h[i].key {
        DownEndBelow(Swap(h, i, c), c, n);
      }
    }
  }

  // ---------- The operations ----------

  lemma {:induction false} RootIsMin<T>(h: seq<Keyed<T>>, k: nat)
    requires IsHeap(h) && k < |h|
    ensures h[0].key <= h[k].key
    decreases k
  {
    if k > 0 {
      assert Edge(h, k);
      RootIsMin(h, Parent(k));
    }
  }

  lemma PushHeap<T>(h: seq<Keyed<T>>, x: Keyed<T>)
    requires IsHeap(h)
    ensures IsHeap(Push(h, x)) && multiset(Push(h, x)) == multiset(h) + multiset{x}
  {
    var g := h + [x];
    SizeUp(g, |h|);
    forall j | 0 < j < |g| && j != |h| && Parent(j) != |h| ensures Edge(g, j) {
      assert Edge(h, j);
    }
    UpRestores(g, |h|, |g|);
  }

  // The root is at the end of the list, and the others are before it.
  lemma PopKeeps<T>(h: seq<Keyed<T>>)
    requires h != []
    ensures var n := |h| - 1; var d := Down(Swap(h, 0, n), 0, n);
            |d| == |h| && d == d[..n] + [h[0]] && multiset(d) == multiset(h)
  {
    SwapKeeps(h, 0, |h| - 1);
    SizeDown(Swap(h, 0, |h| - 1), 0, |h| - 1);
  }

  lemma PopHeap<T>(h: seq<Keyed<T>>)
    requires IsHeap(h) && h != []
    ensures IsHeap(PopRest(h)) && |PopRest(h)| == |h| - 1
    ensures multiset(h) == multiset{h[0]} + multiset(PopRest(h))
    ensures forall x :: x in h ==> h[0].key <= x.key
  {
    forall x | x in h ensures h[0].key <= x.key {
      var k :| 0 <= k < |h| && h[k] == x;
      RootIsMin(h, k);
    }
    PopKeeps(h);
    var n := |h| - 1;
    var s := Swap(h, 0, n);
    var d := Down(s, 0, n);
    if n > 0 {
      forall j | 0 < j < n && j != 0 && Parent(j) != 0 ensures Edge(s, j) {
        assert Edge(h, j);
      }
      DownRestores(s, 0, n);
      PrefixHeap(d, n);
    }
  }

  lemma PopShrinks<T>(h: seq<Keyed<T>>)
    requires h != []
    ensures |PopRest(h)| == |h| - 1
  {
    SizeDown(Swap(h, 0, |h| - 1), 0, |h| - 1);
  }

  lemma PrefixHeap<T>(h: seq<Keyed<T>>, n: nat)
    requires n <= |h| && HeapTo(h, n)
    ensures IsHeap(h[..n])
  {
    forall j | 0 < j < n ensures Edge(h[..n], j) {
      assert Edge(h, j);
    }
  }

  lemma RemoveHeap<T>(h: seq<Keyed<T>>, i: nat)
    requires IsHeap(h) && i < |h|
    ensures IsHeap(Remove(h, i)) && |Remove(h, i)| == |h| - 1
    ensures multiset(h) == multiset{h[i]} + multiset(Remove(h, i))
  {
    var n := |h| - 1;
    if n == i {
      assert h == h[..n] + [h[i]];
      PrefixHeap(h, n);
    } else {
      var s := Swap(h, i, n);
      var r := Repair(s, i, n);
      RemoveKeeps(h, i);
      ChangedKey(h, s, n, i);
      RepairRestores(s, i, n);
      PrefixHeap(r, n);
    }
  }

  // The entry is at the end of the repaired list, and the others are before it.
  lemma RemoveKeeps<T>(h: seq<Keyed<T>>, i: nat)
    requires i < |h| - 1
    ensures var n := |h| - 1; var r := Repair(Swap(h, i, n), i, n);
            |r| == |h| && r == r[..n] + [h[i]] && multiset(r) == multiset(h)
  {
    SwapKeeps(h, i, |h| - 1);
    SizeRepair(Swap(h, i, |h| - 1), i, |h| - 1);
  }

  lemma ChangedKey<T>(h: seq<Keyed<T>>, s: seq<Keyed<T>>, n: nat, i: nat)
    requires IsHeap(h) && i < n <= |h| == |s|
    requires forall k :: 0 <= k < n && k != i ==> s[k] == h[k]
    ensures HeapExcept(s, n, i)
  {
    forall j | 0 < j < n && j != i && Parent(j) != i ensures Edge(s, j) {
      assert Edge(h, j);
    }
    forall j | 0 < j < n && Parent(j) == i && i > 0 ensures s[Parent(i)].key <= s[j].key {
      assert Edge(h, j) && Edge(h, i);
    }
  }

  // Fix repairs the heap after the key at i has been replaced in place.
  lemma FixHeap<T>(h: seq<Keyed<T>>, i: nat, x: Keyed<T>)
    requires IsHeap(h) && i < |h|
    ensures IsHeap(Fix(h[i := x], i)) && |Fix(h[i := x], i)| == |h|
    ensures multiset(Fix(h[i := x], i)) == multiset(h[i := x])
  {
    var s := h[i := x];
    ChangedKey(h, s, |h|, i);
    SizeRepair(s, i, |h|);
    RepairRestores(s, i, |h|);
  }
}
