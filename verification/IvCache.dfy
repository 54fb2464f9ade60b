/**
 The cache of seen IVs (`src/cache.c` as `ss_decrypt` uses it).

 uthash keeps its entries in insertion order, so the cache is a sequence of keys, oldest first.
 A hit re-adds the entry at the end; an insert evicts the first entry as soon as the count
 reaches `max_entries`, so at most `max_entries - 1` keys survive a call.
 */
module IvCache {
  import opened Basics

  function Remove<K(==)>(s: seq<K>, k: K): (r: seq<K>)
    ensures k !in s ==> r == s
  {
    if s == [] then [] else if s[0] == k then s[1..] else [s[0]] + Remove(s[1..], k)
  }

  class Cache<K(==)> {
    const maxEntries: nat
    var entries: seq<K>
    /** Every key presented so far. */
    ghost var history: seq<K>

    ghost predicate Valid()
      reads this
    {
      maxEntries >= 1 && entries == After(history, maxEntries)
    }

    /** `cache_create`. */
    constructor (maxEntries: nat)
      requires maxEntries >= 1
      ensures Valid() && this.maxEntries == maxEntries && history == []
    {
      this.maxEntries := maxEntries;
      entries, history := [], [];
    }

    /** `cache_key_exist`: a hit moves the entry to the end. */
    method KeyExist(key: K) returns (found: bool)
      modifies this`entries
      ensures found == (key in old(entries))
      ensures entries == if found then Remove(old(entries), key) + [key] else old(entries)
    {
      found := key in entries;
      if found {
        entries := Remove(entries, key) + [key];
      }
    }

    /** `cache_insert`. */
    method Insert(key: K)
      modifies this`entries
      ensures entries == Inserted(old(entries), key, maxEntries)
    {
      entries := entries + [key];
      if |entries| >= maxEntries {
        entries := entries[1..];
      }
    }

    /**
     The check of `ss_decrypt` on a first fragment: true exactly if the IV was presented before, with
     too few other IVs since to have driven it out.
     */
    method Present(key: K) returns (replayed: bool)
      requires Valid()
      modifies this`entries, this`history
      ensures Valid() && history == old(history) + [key]
      ensures replayed == Refused(old(history), key, maxEntries)
    {
      ExactLru(history, key, maxEntries);
      replayed := KeyExist(key);
      if !replayed {
        Insert(key);
      }
      AfterOneMore(history, key, maxEntries);
      history := history + [key];
    }
  }

  /** Presented before, and fewer than max - 1 distinct others since. */
  ghost predicate Refused<K>(h: seq<K>, k: K, max: nat) {
    k in h && |OthersSince(h, k)| < max - 1
  }

  lemma AfterOneMore<K>(h: seq<K>, k: K, max: nat)
    ensures After(h + [k], max) == Presented(After(h, max), k, max)
  {
    assert (h + [k])[..|h|] == h;
  }

  function Inserted<K>(entries: seq<K>, key: K, max: nat): seq<K> {
    var e := entries + [key];
    if |e| >= max then e[1..] else e
  }

  function Presented<K(==)>(entries: seq<K>, key: K, max: nat): seq<K> {
    if key in entries then Remove(entries, key) + [key] else Inserted(entries, key, max)
  }

  /** The cache after a history of presented IVs. */
  function After<K(==)>(history: seq<K>, max: nat): seq<K> {
    if history == [] then []
    else Presented(After(history[..|history| - 1], max), history[|history| - 1], max)
  }

  // ---------------------------------------------------------------- the reference

  /** The distinct keys of a history, least recently presented first. */
  function ByRecency<K(==)>(h: seq<K>): seq<K> {
    if h == [] then [] else Remove(ByRecency(h[..|h| - 1]), h[|h| - 1]) + [h[|h| - 1]]
  }

  function LastIndex<K(==)>(h: seq<K>, k: K): (i: nat)
    requires k in h
    ensures i < |h| && h[i] == k && k !in h[i + 1..]
  {
    if h[|h| - 1] == k then |h| - 1
    else
      assert k in h[..|h| - 1];
      var i := LastIndex(h[..|h| - 1], k);
      assert h[i + 1..] == h[..|h| - 1][i + 1..] + [h[|h| - 1]];
      i
  }

  function Elems<K>(s: seq<K>): set<K> { set x | x in s }

  lemma ElemsAppend<K>(a: seq<K>, b: seq<K>)
    ensures Elems(a + b) == Elems(a) + Elems(b)
  {
  }

  /** The other keys presented since k was last presented. */
  function OthersSince<K(==)>(h: seq<K>, k: K): set<K>
    requires k in h
  {
    Elems(h[LastIndex(h, k) + 1..])
  }

  function Suffix<K>(s: seq<K>, n: nat): seq<K> {
    if |s| <= n then s else s[|s| - n..]
  }

  // ---------------------------------------------------------------- the cache is the recent suffix

  lemma RemoveCons<K>(x: K, s: seq<K>, k: K)
    ensures Remove([x] + s, k) == if x == k then s else [x] + Remove(s, k)
  {
    assert ([x] + s)[1..] == s;
  }

  lemma {:induction false} RemoveSplits<K>(a: seq<K>, k: K, b: seq<K>)
    requires k !in a
    ensures Remove(a + [k] + b, k) == a + b
  {
    hide Remove;
    if a == [] {
      RemoveCons(k, b, k);
      assert a + [k] + b == [k] + b && a + b == b;
    } else {
      var rest := a[1..] + [k] + b;
      RemoveCons(a[0], rest, k);
      RemoveSplits(a[1..], k, b);
      assert a + [k] + b == [a[0]] + rest && a + b == [a[0]] + (a[1..] + b);
    }
  }

  /** Where a member stands, and that Remove takes just that one out. */
  lemma RemoveAt<K>(s: seq<K>, k: K) returns (p: nat)
    requires k in s && Unique(s)
    ensures p < |s| && s[p] == k && k !in s[..p] && k !in s[p + 1..]
    ensures Remove(s, k) == s[..p] + s[p + 1..]
  {
    p :| p < |s| && s[p] == k;
    assert s == s[..p] + [k] + s[p + 1..];
    RemoveSplits(s[..p], k, s[p + 1..]);
  }

  lemma TakenOut<K>(s: seq<K>, p: nat)
    requires Unique(s) && p < |s|
    ensures var m := s[..p] + s[p + 1..]; Unique(m) && forall y :: y in m <==> y in s && y != s[p]
  {
    var m := s[..p] + s[p + 1..];
    assert forall i | 0 <= i < |m| :: m[i] == s[if i < p then i else i + 1];
    forall y | y in s && y != s[p] ensures y in m {
      var i :| 0 <= i < |s| && s[i] == y;
      assert m[if i < p then i else i - 1] == y;
    }
  }

  /** The key presented last goes to the end, and nothing is lost. */
  lemma MovedLast<K>(s: seq<K>, x: K)
    requires Unique(s)
    ensures var m := Remove(s, x) + [x]; Unique(m) && forall y :: y in m <==> y in s || y == x
  {
    hide Remove;
    if x in s {
      var p := RemoveAt(s, x);
      TakenOut(s, p);
    }
  }

  lemma {:induction false} RecencyHolds<K>(h: seq<K>)
    ensures Unique(ByRecency(h))
    ensures forall x :: x in ByRecency(h) <==> x in h
  {
    if h != [] {
      var g, x := h[..|h| - 1], h[|h| - 1];
      RecencyHolds(g);
      assert h == g + [x];
      MovedLast(ByRecency(g), x);
    }
  }

  lemma SuffixOf<K>(a: seq<K>, t: seq<K>, n: nat)
    requires |t| == n || (a == [] && |t| <= n)
    ensures Suffix(a + t, n) == t
  {
  }

  lemma HitKeepsSuffix<K>(a: seq<K>, m: seq<K>, x: K, b: seq<K>, n: nat)
    requires x !in a && x !in m && (|m| + 1 + |b| == n || (a == [] && |m| + 1 + |b| <= n))
    ensures Remove(m + [x] + b, x) + [x] == Suffix(Remove(a + (m + [x] + b), x) + [x], n)
  {
    hide Remove, Suffix;
    RemoveSplits(m, x, b);
    RemoveSplits(a + m, x, b);
    Assoc(a, m, [x]);
    Assoc(a, m + [x], b);
    Assoc(a, m, b);
    Assoc(a, m + b, [x]);
    SuffixOf(a, m + b + [x], n);
  }

  lemma MissKeepsSuffix<K>(a: seq<K>, x: K, c: seq<K>, e: seq<K>, n: nat)
    requires x !in a && |e| == n
    ensures (e + [x])[1..] == Suffix(Remove(a + [x] + (c + e), x) + [x], n)
  {
    hide Remove, Suffix;
    RemoveSplits(a, x, c + e);
    var t := (e + [x])[1..];
    assert (a + (c + e)) + [x] == (a + c + (e + [x])[..1]) + t;
    SuffixOf(a + c + (e + [x])[..1], t, n);
  }

  lemma SplitAt<K>(s: seq<K>, p: nat)
    requires p < |s|
    ensures s == s[..p] + [s[p]] + s[p + 1..]
  {
  }

  lemma PresentHit<K>(r: seq<K>, cut: nat, p: nat, n: nat)
    requires cut <= p < |r| && r[p] !in r[..p] && (|r| - cut == n || (cut == 0 && |r| <= n))
    ensures Remove(r[cut..], r[p]) + [r[p]] == Suffix(Remove(r, r[p]) + [r[p]], n)
  {
    hide Remove, Suffix;
    var a, m, x, b := r[..cut], r[cut..p], r[p], r[p + 1..];
    SplitAt(r[cut..], p - cut);
    assert r[cut..][..p - cut] == m && r[cut..][p - cut + 1..] == b;
    assert r == a + r[cut..];
    assert r[..p] == a + m;
    HitKeepsSuffix(a, m, x, b, n);
  }

  lemma PresentMiss<K>(r: seq<K>, cut: nat, p: nat)
    requires p < cut <= |r| && r[p] !in r[..p]
    ensures (r[cut..] + [r[p]])[1..] == Suffix(Remove(r, r[p]) + [r[p]], |r| - cut)
  {
    hide Remove, Suffix;
    assert r[p + 1..] == r[p + 1..cut] + r[cut..];
    SplitAt(r, p);
    MissKeepsSuffix(r[..p], r[p], r[p + 1..cut], r[cut..], |r| - cut);
  }

  /** One presentation keeps the cache equal to the most recent part. */
  lemma PresentNew<K>(r: seq<K>, x: K, max: nat)
    requires x !in r && max >= 1
    ensures Presented(Suffix(r, max - 1), x, max) == Suffix(Remove(r, x) + [x], max - 1)
  {
    hide Remove, Suffix;
    var n: nat := max - 1;
    if |r| < n {
      SuffixOf([], r, n);
      SuffixOf([], r + [x], n);
      assert [] + r == r && [] + (r + [x]) == r + [x];
    } else {
      var cut := |r| - n;
      var f := r[cut..] + [x];
      SuffixOf(r[..cut], r[cut..], n);
      SuffixOf(r[..cut] + f[..1], f[1..], n);
      assert r == r[..cut] + r[cut..] && r + [x] == (r[..cut] + f[..1]) + f[1..];
    }
  }

  lemma PresentKeepsSuffix<K>(r: seq<K>, x: K, max: nat)
    requires Unique(r) && max >= 1
    ensures Presented(Suffix(r, max - 1), x, max) == Suffix(Remove(r, x) + [x], max - 1)
  {
    hide Remove;
    if x !in r {
      PresentNew(r, x, max);
      return;
    }
    var e := Suffix(r, max - 1);
    var cut := |r| - |e|;
    assert e == r[cut..];
    var p := RemoveAt(r, x);
    if p >= cut {
      assert e[p - cut] == x;
      PresentHit(r, cut, p, max - 1);
    } else {
      assert x !in e by { assert e == r[p + 1..][cut - p - 1..]; }
      PresentMiss(r, cut, p);
    }
  }

  lemma {:induction false} CacheIsRecentSuffix<K>(h: seq<K>, max: nat)
    requires max >= 1
    ensures After(h, max) == Suffix(ByRecency(h), max - 1)
  {
    if h != [] {
      var g, x := h[..|h| - 1], h[|h| - 1];
      CacheIsRecentSuffix(g, max);
      RecencyHolds(g);
      PresentKeepsSuffix(ByRecency(g), x, max);
    }
  }

  // ---------------------------------------------------------------- exact LRU

  lemma LastStays<K>(g: seq<K>, x: K, k: K)
    requires k in g && x != k
    ensures k in g + [x] && LastIndex(g + [x], k) == LastIndex(g, k)
  {
    assert (g + [x])[..|g|] == g;
  }

  lemma SinceGrows<K>(g: seq<K>, x: K, k: K)
    requires k in g && x != k
    ensures OthersSince(g + [x], k) == OthersSince(g, k) + {x}
  {
    hide LastIndex, Elems;
    var i := LastIndex(g, k);
    LastStays(g, x, k);
    assert (g + [x])[i + 1..] == g[i + 1..] + [x];
    ElemsAppend(g[i + 1..], [x]);
    ElemsOne(x);
  }

  lemma TakeOut<K>(a: seq<K>, x: K, b: seq<K>)
    ensures Elems(a + b + [x]) == Elems(a + [x] + b) + {x}
  {
  }

  /** Moving x to the end adds it to what stands behind k. */
  lemma MoveBehind<K>(r: seq<K>, q: nat, x: K) returns (p: nat)
    requires Unique(r) && q < |r| && r[q] != x
    ensures var t := Remove(r, x) + [x]; p < |t| && t[p] == r[q] && Elems(t[p + 1..]) == Elems(r[q + 1..]) + {x}
  {
    hide Remove, Elems;
    var t := Remove(r, x) + [x];
    ElemsAppend(r[q + 1..], [x]);
    assert Elems([x]) == {x} by { ElemsOne(x); }
    if x !in r {
      p := q;
      assert t[p + 1..] == r[q + 1..] + [x];
    } else {
      var at := RemoveAt(r, x);
      if at < q {
        p := q - 1;
        assert t[p + 1..] == r[q + 1..] + [x];
      } else {
        p := q;
        TakeOut(r[q + 1..at], x, r[at + 1..]);
        assert t[p + 1..] == r[q + 1..at] + r[at + 1..] + [x];
        assert r[q + 1..] == r[q + 1..at] + [x] + r[at + 1..];
      }
    }
  }

  lemma ElemsOne<K>(x: K)
    ensures Elems([x]) == {x}
  {
  }

  /** What stands behind k in recency order is what was presented since. */
  lemma {:induction false} BehindIsSince<K>(h: seq<K>, k: K) returns (p: nat)
    requires k in h
    ensures p < |ByRecency(h)| && ByRecency(h)[p] == k
    ensures Elems(ByRecency(h)[p + 1..]) == OthersSince(h, k)
  {
    var g, x := h[..|h| - 1], h[|h| - 1];
    assert h == g + [x];
    if x == k {
      p := |ByRecency(h)| - 1;
      assert h[LastIndex(h, k) + 1..] == [];
    } else {
      var q := BehindIsSince(g, k);
      RecencyHolds(g);
      SinceGrows(g, x, k);
      p := MoveBehind(ByRecency(g), q, x);
    }
  }

  lemma {:induction false} DistinctCount<K>(s: seq<K>)
    requires Unique(s)
    ensures |Elems(s)| == |s|
  {
    if s != [] {
      DistinctCount(s[1..]);
      assert Elems(s) == {s[0]} + Elems(s[1..]);
    }
  }

  /**
   An IV is refused if and only if it was presented before and fewer than `max - 1` distinct other
   IVs were presented since its last presentation.
   */
  lemma ExactLru<K>(h: seq<K>, k: K, max: nat)
    requires max >= 1
    ensures k in After(h, max) <==> Refused(h, k, max)
  {
    CacheIsRecentSuffix(h, max);
    RecencyHolds(h);
    var r := ByRecency(h);
    if k in h {
      var p := BehindIsSince(h, k);
      DistinctCount(r[p + 1..]);
      var n := max - 1;
      if |r| > n {
        assert k in Suffix(r, n) <==> p >= |r| - n by {
          if p >= |r| - n { assert Suffix(r, n)[p - (|r| - n)] == k; }
          if k in Suffix(r, n) { var i :| 0 <= i < n && Suffix(r, n)[i] == k; assert r[|r| - n + i] == k; }
        }
      }
    }
  }
}
