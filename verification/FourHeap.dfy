/**
 The 4-ary heap behind libev's timers, on values: what `upheap`, `downheap`, `adjustheap` and
 `reheap` make of a sequence of entries.  Position i here is array index `HEAP0 + i`.
 */
module FourHeap {

  /** The branching factor `DHEAP` is 4; array indices start at `HEAP0`. */
  const HEAP0: nat := 3

  /** `ANHE`: a watcher with its cached expiry time. */
  datatype Entry<+T> = Entry(at: real, w: T)

  function Parent(i: nat): nat
    requires i > 0
  {
    (i - 1) / 4
  }

  function Swap<T>(h: seq<Entry<T>>, i: nat, j: nat): (r: seq<Entry<T>>)
    requires i < |h| && j < |h|
    ensures |r| == |h|
  {
    h[i := h[j]][j := h[i]]
  }

  /** `upheap`: towards the root while the parent is later. */
  function Up<T>(h: seq<Entry<T>>, k: nat): (r: seq<Entry<T>>)
    requires k < |h|
    ensures |r| == |h|
    decreases k
  {
    if k == 0 || h[Parent(k)].at <= h[k].at then h else Up(Swap(h, k, Parent(k)), Parent(k))
  }

  /** The first of the earliest children of position k. */
  function MinChild<T>(h: seq<Entry<T>>, k: nat): (c: nat)
    requires 4 * k + 1 < |h|
    ensures 4 * k + 1 <= c <= 4 * k + 4 && c < |h|
    ensures forall i :: 4 * k + 1 <= i <= 4 * k + 4 && i < |h| ==> h[c].at <= h[i].at
  {
    var p := 4 * k + 1;
    var c1 := if p + 1 < |h| && h[p + 1].at < h[p].at then p + 1 else p;
    var c2 := if p + 2 < |h| && h[p + 2].at < h[c1].at then p + 2 else c1;
    if p + 3 < |h| && h[p + 3].at < h[c2].at then p + 3 else c2
  }

  /** `downheap`: away from the root while a child is earlier. */
  function Down<T>(h: seq<Entry<T>>, k: nat): (r: seq<Entry<T>>)
    requires k < |h|
    ensures |r| == |h|
    decreases |h| - k
  {
    if 4 * k + 1 >= |h| then h
    else
      var c := MinChild(h, k);
      if h[k].at <= h[c].at then h else Down(Swap(h, k, c), c)
  }

  /** `adjustheap`. */
  function Adjust<T>(h: seq<Entry<T>>, k: nat): (r: seq<Entry<T>>)
    requires k < |h|
    ensures |r| == |h|
  {
    if k > 0 && h[k].at <= h[Parent(k)].at then Up(h, k) else Down(h, k)
  }

  /** `reheap`: the first n entries are inserted one after the other. */
  function Reheap<T>(h: seq<Entry<T>>, n: nat): (r: seq<Entry<T>>)
    requires n <= |h|
    ensures |r| == |h|
  {
    if n == 0 then h else Up(Reheap(h, n - 1), n - 1)
  }

  // ---------------------------------------------------------------- heap order

  /** Entry i is not earlier than its parent. */
  predicate Edge<T>(h: seq<Entry<T>>, i: nat)
    requires 0 < i < |h|
  {
    h[Parent(i)].at <= h[i].at
  }

  /** No entry among the first n is earlier than its parent. */
  ghost predicate Ordered<T>(h: seq<Entry<T>>, n: nat) {
    n <= |h| && forall i :: 0 < i < n ==> Edge(h, i)
  }

  ghost predicate Heap<T>(h: seq<Entry<T>>) { Ordered(h, |h|) }

  /** A child of k would be in order below the parent of k. */
  predicate Bridged<T>(h: seq<Entry<T>>, k: nat, i: nat)
    requires k < |h| && i < |h|
  {
    k > 0 && i > 0 && Parent(i) == k ==> h[Parent(k)].at <= h[i].at
  }

  /** Ordered but for the entry at k, which may be too early. */
  ghost predicate TooEarly<T>(h: seq<Entry<T>>, n: nat, k: nat) {
    && k < n <= |h|
    && (forall i :: 0 < i < n && i != k ==> Edge(h, i))
    && (forall i :: 0 <= i < n ==> Bridged(h, k, i))
  }

  /** Ordered but for the entry at k, which may be too late. */
  ghost predicate TooLate<T>(h: seq<Entry<T>>, k: nat) {
    && k < |h|
    && (forall i :: 0 < i < |h| && Parent(i) != k ==> Edge(h, i))
    && (forall i :: 0 <= i < |h| ==> Bridged(h, k, i))
  }

  lemma UpStep<T>(h: seq<Entry<T>>, n: nat, k: nat)
    requires TooEarly(h, n, k) && k > 0 && h[k].at < h[Parent(k)].at
    ensures TooEarly(Swap(h, k, Parent(k)), n, Parent(k))
  {
    var p := Parent(k);
    var g := Swap(h, k, p);
    forall i | 0 < i < n && i != p ensures Edge(g, i) {
      assert i != k ==> Edge(h, i);
      assert Bridged(h, k, i);
    }
    forall i | 0 <= i < n ensures Bridged(g, p, i) {
      if i > 0 && Parent(i) == p && p > 0 {
        assert Edge(h, p);
        assert i != k ==> Edge(h, i);
      }
    }
  }

  lemma {:induction false} UpRepairs<T>(h: seq<Entry<T>>, n: nat, k: nat)
    requires TooEarly(h, n, k)
    ensures Ordered(Up(h, k), n)
    decreases k
  {
    if k > 0 && h[Parent(k)].at > h[k].at {
      UpStep(h, n, k);
      UpRepairs(Swap(h, k, Parent(k)), n, Parent(k));
    } else {
      assert k > 0 ==> Edge(h, k);
    }
  }

  lemma Children(i: nat, k: nat)
    requires i > 0
    ensures Parent(i) == k <==> 4 * k + 1 <= i <= 4 * k + 4
  {
  }

  /** After a swap with the earliest child only that child's place may be too late. */
  lemma DownStep<T>(h: seq<Entry<T>>, k: nat, c: nat)
    requires TooLate(h, k) && 4 * k + 1 < |h| && c == MinChild(h, k) && h[c].at < h[k].at
    ensures TooLate(Swap(h, k, c), c)
  {
    var g := Swap(h, k, c);
    Children(c, k);
    assert Bridged(h, k, c);
    forall i | 0 < i < |g| && Parent(i) != c ensures Edge(g, i) {
      Children(i, k);
      assert Parent(i) != k ==> Edge(h, i);
    }
    forall i | 0 <= i < |g| ensures Bridged(g, c, i) {
      if i > 0 && Parent(i) == c {
        assert Edge(h, i);
      }
    }
  }

  lemma {:induction false} DownRepairs<T>(h: seq<Entry<T>>, k: nat)
    requires TooLate(h, k)
    ensures Heap(Down(h, k))
    decreases |h| - k
  {
    if 4 * k + 1 < |h| && h[MinChild(h, k)].at < h[k].at {
      var c := MinChild(h, k);
      DownStep(h, k, c);
      DownRepairs(Swap(h, k, c), c);
    } else {
      forall i | 0 < i < |h| ensures Edge(h, i) {
        Children(i, k);
      }
    }
  }

  /** `adjustheap` repairs a heap in which one entry was replaced by any other. */
  lemma AdjustRepairs<T>(h: seq<Entry<T>>, k: nat, e: Entry<T>)
    requires k < |h| && Heap(h)
    ensures Heap(Adjust(h[k := e], k))
  {
    var g := h[k := e];
    forall i | 0 <= i < |g| ensures Bridged(g, k, i) {
      if k > 0 && i > 0 && Parent(i) == k {
        assert Edge(h, k) && Edge(h, i);
      }
    }
    forall i | 0 < i < |g| && i != k && Parent(i) != k ensures Edge(g, i) {
      assert Edge(h, i);
    }
    if k > 0 && g[k].at <= g[Parent(k)].at {
      forall i | 0 < i < |g| && i != k ensures Edge(g, i) {
        assert Bridged(g, k, i);
      }
      UpRepairs(g, |g|, k);
    } else {
      assert k > 0 ==> Edge(g, k);
      DownRepairs(g, k);
    }
  }

  /** Sifting up the last of n entries extends the order to it. */
  lemma OneMoreOrdered<T>(h: seq<Entry<T>>, n: nat)
    requires 0 < n <= |h| && Ordered(h, n - 1)
    ensures Ordered(Up(h, n - 1), n)
  {
    var k := n - 1;
    forall i | 0 <= i < n ensures Bridged(h, k, i) {
      assert i > 0 ==> Parent(i) < i;
    }
    UpRepairs(h, n, k);
  }

  /** Appending an entry and sifting it up keeps the heap. */
  lemma PushKeepsHeap<T>(h: seq<Entry<T>>, e: Entry<T>)
    requires Heap(h)
    ensures Heap(Up(h + [e], |h|))
  {
    hide Up;
    var g := h + [e];
    forall i | 0 < i < |h| ensures Edge(g, i) {
      assert Edge(h, i);
    }
    OneMoreOrdered(g, |g|);
  }

  /** Dropping the last entry keeps the heap. */
  lemma DropKeepsHeap<T>(h: seq<Entry<T>>)
    requires Heap(h) && h != []
    ensures Heap(h[..|h| - 1])
  {
    var g := h[..|h| - 1];
    forall i | 0 < i < |g| ensures Edge(g, i) {
      assert Edge(h, i);
    }
  }

  /** `reheap` makes a heap of anything. */
  lemma {:induction false} ReheapOrders<T>(h: seq<Entry<T>>, n: nat)
    requires n <= |h|
    ensures Ordered(Reheap(h, n), n)
  {
    if n > 0 {
      ReheapOrders(h, n - 1);
      OneMoreOrdered(Reheap(h, n - 1), n);
    }
  }

  // ---------------------------------------------------------------- nothing is lost

  lemma SwapRearranges<T>(h: seq<Entry<T>>, i: nat, j: nat)
    requires i < |h| && j < |h|
    ensures multiset(Swap(h, i, j)) == multiset(h)
  {
  }

  lemma {:induction false} UpRearranges<T>(h: seq<Entry<T>>, k: nat)
    requires k < |h|
    ensures multiset(Up(h, k)) == multiset(h)
    decreases k
  {
    if k > 0 && h[k].at < h[Parent(k)].at {
      SwapRearranges(h, k, Parent(k));
      UpRearranges(Swap(h, k, Parent(k)), Parent(k));
    }
  }

  lemma {:induction false} DownRearranges<T>(h: seq<Entry<T>>, k: nat)
    requires k < |h|
    ensures multiset(Down(h, k)) == multiset(h)
    decreases |h| - k
  {
    if 4 * k + 1 < |h| && h[MinChild(h, k)].at < h[k].at {
      SwapRearranges(h, k, MinChild(h, k));
      DownRearranges(Swap(h, k, MinChild(h, k)), MinChild(h, k));
    }
  }

  lemma AdjustRearranges<T>(h: seq<Entry<T>>, k: nat)
    requires k < |h|
    ensures multiset(Adjust(h, k)) == multiset(h)
  {
    UpRearranges(h, k);
    DownRearranges(h, k);
  }

  lemma {:induction false} ReheapRearranges<T>(h: seq<Entry<T>>, n: nat)
    requires n <= |h|
    ensures multiset(Reheap(h, n)) == multiset(h)
  {
    if n > 0 {
      ReheapRearranges(h, n - 1);
      UpRearranges(Reheap(h, n - 1), n - 1);
    }
  }

  /** The root of a heap is earliest. */
  lemma {:induction false} RootIsEarliest<T>(h: seq<Entry<T>>, i: nat)
    requires Heap(h) && i < |h|
    ensures h[0].at <= h[i].at
  {
    if i > 0 {
      assert Edge(h, i);
      RootIsEarliest(h, Parent(i));
    }
  }
}
