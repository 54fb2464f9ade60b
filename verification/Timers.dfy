/** libev's timers: the heap array, the position noted in every active watcher and the pending queues. */
module Timers {
  import opened Basics
  import opened FourHeap
  import opened PendingQueues
  import opened Pendings

  type Entries = seq<Entry<Watcher>>

  function Members(h: Entries): set<Watcher> { set e | e in h :: e.w }

  ghost predicate Distinct(h: Entries) {
    forall i, j :: 0 <= i < j < |h| ==> h[i].w != h[j].w
  }

  /** Every entry but the one at k is where its watcher says it is. */
  ghost predicate PlacedBut(h: Entries, k: int)
    reads Members(h)`active
  {
    forall i :: 0 <= i < |h| && i != k ==> h[i].w in Members(h) && h[i].w.active == HEAP0 + i
  }

  lemma SwapKeeps(h: Entries, i: nat, j: nat)
    requires Distinct(h) && i < |h| && j < |h|
    ensures Distinct(Swap(h, i, j)) && Members(Swap(h, i, j)) == Members(h)
  {
    var g := Swap(h, i, j);
    assert h[i] in h && h[j] in h && g[i] in g && g[j] in g;
    forall e | e in h ensures e in g {
      var n :| 0 <= n < |h| && h[n] == e;
      assert e == if n == i then g[j] else if n == j then g[i] else g[n];
    }
    forall e | e in g ensures e in h {
      var n :| 0 <= n < |g| && g[n] == e;
    }
  }

  class TimerHeap {
    const pend: PendingSet
    var timers: Entries
    var now: real               // mn_now
    ghost var mine: set<Watcher>

    constructor (pend: PendingSet, now: real)
      requires pend.Valid()
      ensures Valid() && timers == [] && mine == {} && this.pend == pend && this.now == now
    {
      timers, mine, this.pend, this.now := [], {}, pend, now;
    }

    /** A registered watcher is used as a timer of this loop for the first time. */
    ghost method Adopt(w: Watcher)
      requires Valid() && w in pend.known && w !in mine && w.active == 0
      modifies this`mine
      ensures Valid() && mine == old(mine) + {w}
    {
      mine := mine + {w};
    }

    /**
     One move of `upheap` or `downheap`: the entry at p goes to k, which leaves the hole for `he` at p.
     Seen with `he` in the hole, the two are swapped.
     */
    method MoveInto(k: nat, p: nat, he: Entry<Watcher>)
      requires k < |timers| && p < |timers| && k != p
      requires PlacedBut(timers[k := he], k) && Distinct(timers[k := he])
      modifies this`timers, {timers[p].w}`active
      ensures timers == old(timers)[k := old(timers)[p]] && timers[p := he] == Swap(old(timers)[k := he], k, p)
      ensures PlacedBut(timers[p := he], p) && Distinct(timers[p := he])
      ensures Members(timers[p := he]) == old(Members(timers[k := he]))
    {
      SwapKeeps(timers[k := he], k, p);
      timers := timers[k := timers[p]];
      timers[k].w.active := HEAP0 + k;
      ghost var g := timers[p := he];
      assert g == Swap(old(timers)[k := he], k, p);
      forall i | 0 <= i < |g| && i != p ensures g[i].w in Members(g) && g[i].w.active == HEAP0 + i {
        assert g[i] in g;
      }
    }

    /** Putting `he` into the hole at k. */
    method PlaceAt(k: nat, he: Entry<Watcher>)
      requires k < |timers| && PlacedBut(timers[k := he], k) && Distinct(timers[k := he])
      modifies this`timers, {he.w}`active
      ensures timers == old(timers)[k := he] && PlacedBut(timers, -1)
    {
      timers := timers[k := he];
      he.w.active := HEAP0 + k;
      assert timers[k] in timers;
    }

    /** `upheap`. */
    method Upheap(k0: nat)
      requires k0 < |timers| && PlacedBut(timers, k0) && Distinct(timers)
      modifies this`timers, Members(timers)`active
      ensures timers == Up(old(timers), k0) && PlacedBut(timers, -1) && Distinct(timers) && Members(timers) == old(Members(timers))
    {
      hide Members, Distinct, PlacedBut, Swap;
      var he, k := timers[k0], k0;
      assert timers[k0 := he] == timers;
      while k > 0 && he.at < timers[Parent(k)].at
        invariant 0 <= k < |timers|
        invariant Up(timers[k := he], k) == Up(old(timers), k0)
        invariant PlacedBut(timers[k := he], k) && Distinct(timers[k := he])
        invariant Members(timers[k := he]) == old(Members(timers))
      {
        var p := Parent(k);
        Member(timers[k := he], p);
        MoveInto(k, p, he);
        k := p;
      }
      Member(timers[k := he], k);
      PlaceAt(k, he);
    }

    /** `downheap`. */
    method Downheap(k0: nat)
      requires k0 < |timers| && PlacedBut(timers, k0) && Distinct(timers)
      modifies this`timers, Members(timers)`active
      ensures timers == Down(old(timers), k0) && PlacedBut(timers, -1) && Distinct(timers) && Members(timers) == old(Members(timers))
    {
      hide Members, Distinct, PlacedBut, Swap, MinChild;
      var he, k := timers[k0], k0;
      assert timers[k0 := he] == timers;
      while 4 * k + 1 < |timers|
        invariant 0 <= k < |timers|
        invariant Down(timers[k := he], k) == Down(old(timers), k0)
        invariant PlacedBut(timers[k := he], k) && Distinct(timers[k := he])
        invariant Members(timers[k := he]) == old(Members(timers))
        decreases |timers| - k
      {
        var c := MinChild(timers, k);
        SameMinChild(timers, k, he);
        if he.at <= timers[c].at {
          break;
        }
        Member(timers[k := he], c);
        MoveInto(k, c, he);
        k := c;
      }
      Member(timers[k := he], k);
      PlaceAt(k, he);
    }

    /** `adjustheap`. */
    method Adjustheap(k: nat)
      requires k < |timers| && PlacedBut(timers, k) && Distinct(timers)
      modifies this`timers, Members(timers)`active
      ensures timers == Adjust(old(timers), k) && PlacedBut(timers, -1) && Distinct(timers) && Members(timers) == old(Members(timers))
    {
      if k > 0 && timers[k].at <= timers[Parent(k)].at {
        Upheap(k);
      } else {
        Downheap(k);
      }
    }

    /** `reheap`. */
    method ReheapAll()
      requires PlacedBut(timers, -1) && Distinct(timers)
      modifies this`timers, Members(timers)`active
      ensures timers == Reheap(old(timers), |old(timers)|) && Heap(timers) && multiset(timers) == old(multiset(timers))
      ensures PlacedBut(timers, -1) && Distinct(timers) && Members(timers) == old(Members(timers))
    {
      hide Members, Distinct, Up, Heap;
      for i := 0 to |timers|
        invariant timers == Reheap(old(timers), i)
        invariant PlacedBut(timers, -1) && Distinct(timers) && Members(timers) == old(Members(timers))
      {
        Upheap(i);
      }
      ReheapOrders(old(timers), |old(timers)|);
      ReheapRearranges(old(timers), |old(timers)|);
      OrderedIsHeap(timers);
    }

    /**
     What `verify_heap` checks and more: heap order, positions and cached times agree with the
     watchers, an active watcher is in the heap, and the pending queues are in order.
     */
    ghost predicate Valid()
      reads this, pend, pend.known
    {
      && pend.Valid() && mine <= pend.known
      && Heap(timers) && Distinct(timers) && Members(timers) <= mine && PlacedBut(timers, -1)
      && Cached(timers)
      && (forall w :: w in mine && w.active > 0 ==> w in Members(timers))
    }

    /** `ev_timer_start`. */
    method Start(w: Watcher)
      requires Valid() && w in mine && w.repeat >= 0.0
      modifies this`timers, mine`active, w`at
      ensures Valid() && w.active > 0
      ensures old(w.active) > 0 ==> timers == old(timers) && w.at == old(w.at)
      ensures old(w.active) == 0 ==> w.at == old(w.at) + now && Added(old(timers), timers, Entry(w.at, w))
    {
      hide Members, Distinct, PlacedBut, Cached, Up, Heap, PendingSet.Valid;
      if w.active > 0 {
        return;
      }
      ghost var was := timers;
      Inactive(was, w);
      w.at := w.at + now;
      var e := Entry(w.at, w);
      w.active := |timers| + HEAP0;
      timers := timers + [e];
      PushedPlaced(was, e);
      Upheap(|timers| - 1);
      PushKeepsHeap(was, e);
      UpRearranges(was + [e], |was|);
      CachedRearranged(was + [e], timers);
      Inactive(timers, w);
    }

    /** The heap part of `ev_timer_stop`: the last entry takes the place of w's. */
    method Extract(w: Watcher)
      requires Valid() && w in mine && w.active > 0
      modifies this`timers, Members(timers)`active
      ensures Heap(timers) && Distinct(timers) && PlacedBut(timers, -1) && Cached(timers)
      ensures Members(timers) == old(Members(timers)) - {w} && w in old(Members(timers))
      ensures Dropped(old(timers), timers, Entry(w.at, w))
    {
      hide Distinct, Adjust, Heap, PendingSet.Valid, PlacedBut, Members, Cached, Dropped;
      ghost var was := timers;
      Found(was, w);
      var k, n := w.active - HEAP0, |timers| - 1;
      var last := timers[n];
      Member(was, k);
      Member(was, n);
      Shorter(was);
      timers := timers[..n];
      if k < n {
        OverwrittenAdjusts(was, k);
        timers := timers[k := last];
        Adjustheap(k);
      }
    }

    /** `ev_timer_stop`: the remaining time is kept in the watcher. */
    method Stop(w: Watcher)
      requires Valid() && w in mine
      modifies this`timers, mine`active, w`at, w`pending, pend`queues
      ensures Valid() && w.active == 0 && w.pending == 0 && pend.queues == Clear(old(pend.queues), w, pend.dummy)
      ensures old(w.active) == 0 ==> timers == old(timers) && w.at == old(w.at)
      ensures old(w.active) > 0 ==> w.at == old(w.at) - now && Dropped(old(timers), timers, Entry(old(w.at), w))
    {
      hide Distinct, Heap, PendingSet.Valid, PlacedBut, Members, Cached, Dropped;
      ClearEvent(w);
      if w.active == 0 {
        return;
      }
      Extract(w);
      w.at := w.at - now;
      w.active := 0;
    }

    /** A new time for the watcher of entry k, which is not cached yet. */
    method SetTime(w: Watcher, k: nat, at: real)
      requires k < |timers| && timers[k].w == w && Distinct(timers) && Cached(timers)
      modifies w`at
      ensures w.at == at && forall i :: 0 <= i < |timers| && i != k ==> timers[i].at == timers[i].w.at
    {
      hide Distinct, Cached;
      CachedAll(timers);
      DistinctAt(timers, k);
      w.at := at;
    }

    /** A new time for an active watcher, cached and sifted into place. */
    method Rekey(w: Watcher, at: real)
      requires Valid() && w in mine && w.active > 0
      modifies this`timers, mine`active, w`at
      ensures Valid() && w.active > 0 && w.at == at && Members(timers) == old(Members(timers))
      ensures Swapped(old(timers), timers, Entry(old(w.at), w), Entry(at, w))
    {
      hide Distinct, Adjust, Heap, PendingSet.Valid, PlacedBut, Members, Cached, Swapped;
      Found(timers, w);
      var k := w.active - HEAP0;
      SetTime(w, k, at);
      assert pend.Valid();
      RekeyedAdjusts(timers, k, at);
      Member(timers, k);
      timers := timers[k := Entry(at, w)];
      ghost var g := Adjust(timers, k);
      Adjustheap(k);
      assert pend.Valid();
      assert timers == g && Cached(g) && Members(timers) == old(Members(timers));
      Inactive(timers, w);
    }

    /** A waiting event is dropped. */
    method ClearEvent(w: Watcher)
      requires Valid() && w in mine
      modifies w`pending, pend`queues
      ensures Valid() && w.pending == 0 && pend.queues == Clear(old(pend.queues), w, pend.dummy)
      ensures var qs := pend.queues; Clear(qs, w, pend.dummy) == qs
    {
      hide Distinct, Heap, PendingSet.Valid, PlacedBut, Members, Cached, Clear;
      pend.ClearIdempotent(w);
      var _ := pend.ClearPending(w);
    }

    /** An inactive watcher is started to expire the given time from now. */
    method StartIn(w: Watcher, after: real)
      requires Valid() && w in mine && w.active == 0 && w.repeat >= 0.0
      modifies this`timers, mine`active, w`at
      ensures Valid() && w.active > 0 && w.at == after + now
      ensures Added(old(timers), timers, Entry(w.at, w))
    {
      hide Distinct, Heap, PendingSet.Valid, PlacedBut, Members, Cached, Added;
      w.at := after;
      Inactive(timers, w);
      Start(w);
    }

    /** `ev_timer_again`. */
    method Again(w: Watcher)
      requires Valid() && w in mine && w.repeat >= 0.0
      modifies this`timers, mine`active, w`at, w`pending, pend`queues
      ensures Valid() && w.pending == 0 && pend.queues == Clear(old(pend.queues), w, pend.dummy)
      ensures w.repeat != 0.0 ==> w.active > 0 && w.at == now + w.repeat
      ensures w.repeat == 0.0 ==> w.active == 0
      ensures
        if old(w.active) == 0 then
          if w.repeat == 0.0 then timers == old(timers) else Added(old(timers), timers, Entry(now + w.repeat, w))
        else if w.repeat == 0.0 then Dropped(old(timers), timers, Entry(old(w.at), w))
        else Swapped(old(timers), timers, Entry(old(w.at), w), Entry(now + w.repeat, w))
    {
      hide TimerHeap.Valid, Clear, Added, Dropped, Swapped;
      ClearEvent(w);
      if w.active > 0 {
        if w.repeat != 0.0 {
          Rekey(w, now + w.repeat);
        } else {
          Stop(w);
        }
      } else if w.repeat != 0.0 {
        StartIn(w, w.repeat);
      }
    }

    /** One turn of the loop of `timers_reify`: the earliest timer is renewed or stopped. */
    method ExpireRoot() returns (w: Watcher)
      requires Valid() && timers != [] && timers[0].at < now && (forall w | w in mine :: w.repeat >= 0.0)
      modifies this`timers, mine`active, mine`at, mine`pending, pend`queues
      ensures Valid() && w == old(timers)[0].w && w in mine
      ensures w.at == Renewed(old(w.at), w.repeat, now) && (forall x | x in mine && x != w :: x.at == old(x.at))
      ensures Members(timers) == if w.repeat == 0.0 then old(Members(timers)) - {w} else old(Members(timers))
      ensures w.priority < NUMPRI && NoneBefore(Members(timers), old(w.at))
      ensures pend.queues == if w.repeat == 0.0 then Clear(old(pend.queues), w, pend.dummy) else old(pend.queues)
    {
      hide Distinct, Heap, PendingSet.Valid, PlacedBut, Members, Cached;
      w := timers[0].w;
      RootFirst(timers);
      pend.Known(w);
      Found(timers, w);
      if w.repeat != 0.0 {
        var at := w.at + w.repeat;
        if at < now {
          at := now;
        }
        Rekey(w, at);
      } else {
        ghost var was := timers;
        Stop(w);
        MembersAfterStop(was, timers, w, old(w.at));
      }
    }

    /** The same, as one more turn after those that fed the watchers fed. */
    method ExpireNext(fed: seq<Watcher>, ghost all: set<Watcher>, ghost qs: Queues) returns (w: Watcher)
      requires Valid() && timers != [] && timers[0].at < now && (forall w | w in mine :: w.repeat >= 0.0)
      requires all <= mine && Members(timers) == Surviving(all, fed) && timers[0].w in all
      requires (forall x | x in fed :: x.priority < NUMPRI) && pend.queues == ClearOneShots(qs, fed, pend.dummy)
      modifies this`timers, mine`active, mine`at, mine`pending, pend`queues
      ensures Valid() && w == old(timers)[0].w && w in mine && w.priority < NUMPRI
      ensures w.at == Renewed(old(w.at), w.repeat, now) && (forall x | x in mine && x != w :: x.at == old(x.at))
      ensures NoneBefore(Members(timers), old(w.at)) && Members(timers) == Surviving(all, fed + [w])
      ensures pend.queues == ClearOneShots(qs, fed + [w], pend.dummy)
    {
      hide Distinct, Heap, PendingSet.Valid, PlacedBut, Members, Cached, Clear, ClearOneShots, Surviving, NoneBefore, Renewed;
      SurvivingMore(all, fed, timers[0].w);
      w := ExpireRoot();
      ClearOneMore(qs, fed, w, pend.dummy);
    }

    /**
     The loop of `timers_reify`: it collects exactly the timers whose time is past, each once and
     in the order of their times, and leaves none that is past.
     */
    method Expire() returns (fed: seq<Watcher>)
      requires Valid() && (forall w | w in mine :: w.repeat >= 0.0)
      modifies this`timers, mine`active, mine`at, mine`pending, pend`queues
      ensures Valid() && (forall e | e in timers :: e.at >= now)
      ensures Unique(fed) && (forall w :: w in fed <==> w in old(Members(timers)) && w in mine && old(w.at) < now)
      ensures SortedBy(fed, old(Times(mine)))
      ensures forall w | w in mine :: w.at == if w in fed then Renewed(old(w.at), w.repeat, now) else old(w.at)
      ensures Members(timers) == Surviving(old(Members(timers)), fed)
      ensures (forall w | w in fed :: w.priority < NUMPRI) && pend.queues == ClearOneShots(old(pend.queues), fed, pend.dummy)
    {
      hide Distinct, Heap, PendingSet.Valid, PlacedBut, Members, Cached, Clear, ClearOneShots, SortedBy, Unique, Surviving, Unfed,
        NoneBefore, RenewedAll, DueOf;
      ghost var at0, all := Times(mine), Members(timers);
      fed := [];
      NoneFed(all, mine, now);
      ClearNone(pend.queues, fed, pend.dummy);
      while |timers| > 0 && timers[0].at < now
        invariant Valid() && Unique(fed) && SortedBy(fed, at0)
        invariant DueOf(fed, all * mine, at0, now) && RenewedAll(mine, Times(mine), fed, at0, now)
        invariant fed != [] ==> fed[|fed| - 1] in at0 && NoneBefore(Members(timers), at0[fed[|fed| - 1]])
        invariant Members(timers) == Surviving(all, fed)
        invariant (forall x | x in fed :: x.priority < NUMPRI) && pend.queues == ClearOneShots(old(pend.queues), fed, pend.dummy)
        decreases Unfed(all, fed)
      {
        RootUnfed(timers, mine, all, fed, at0, now);
        SurvivingMore(all, fed, timers[0].w);
        ghost var was := Times(mine);
        var w := ExpireNext(fed, all, old(pend.queues));
        RenewedMore(mine, was, fed, w, at0, now);
        OneMore(fed, w, at0);
        DueMore(fed, w, all * mine, at0, now);
        fed := fed + [w];
      }
      EarliestIsLater(timers, now);
      AllFed(Members(timers), mine, all, fed, at0, now);
    }

    /**
     `timers_reify`: when no timer was pending, the callbacks that follow run priority by priority,
     first the timers that were due, the earliest first, then what was queued before.
     */
    method Reify() returns (fed: seq<Watcher>)
      requires Valid() && (forall w | w in mine :: w.repeat >= 0.0)
      modifies this`timers, mine`active, mine`at, pend.known`pending, pend`queues, pend`pendingpri
      ensures Valid() && (forall e | e in timers :: e.at >= now)
      ensures Unique(fed) && (forall w :: w in fed <==> w in old(Members(timers)) && w in mine && old(w.at) < now)
      ensures forall w | w in mine :: w.at == if w in fed then Renewed(old(w.at), w.repeat, now) else old(w.at)
      ensures Members(timers) == Surviving(old(Members(timers)), fed)
      ensures forall p: nat :: SortedBy(OfPriority(fed, p), old(Times(mine)))
      ensures forall w | w in fed :: w.priority < NUMPRI
      ensures pend.queues == FeedReverse(ClearOneShots(old(pend.queues), fed, pend.dummy), fed, {Timer})
      ensures old(forall w | w in mine :: w.pending == 0) ==>
        Schedule(pend.queues, [], pend.dummy) == FedFirst(old(pend.queues), fed, {Timer}, NUMPRI - 1, pend.dummy)
    {
      hide Distinct, Heap, PendingSet.Valid, PlacedBut, Members, Cached, Schedule, FedFirst, FeedReverse, SortedBy,
        Unique, Surviving, ClearOneShots, OfPriority;
      ghost var at0 := Times(mine);
      forall w | w in mine ensures w.priority < NUMPRI && w != pend.dummy && w.pending == Find(pend.queues[w.priority], w) {
        pend.Known(w);
      }
      fed := Expire();
      assert forall w | w in fed :: w in mine && w in pend.known;
      pend.FeedReverseDone(fed, {Timer});
      forall p: nat ensures SortedBy(OfPriority(fed, p), at0) {
        OfPrioritySorted(fed, p, at0);
      }
      if old(forall w | w in mine :: w.pending == 0) {
        ClearNone(old(pend.queues), fed, pend.dummy);
        ReverseFeedingKeepsOrder(old(pend.queues), fed, {Timer}, pend.dummy);
      }
    }

    /** `timers_reschedule`: every time moves by the same amount, so nothing else does. */
    method Reschedule(adjust: real)
      requires Valid()
      modifies this`timers, Members(timers)`at
      ensures Valid() && timers == Shifted(old(timers), adjust)
    {
      hide Heap, PendingSet.Valid, Distinct, PlacedBut;
      ghost var was := timers;
      for i := 0 to |timers|
        invariant |timers| == |was|
        invariant forall j :: 0 <= j < |was| ==> timers[j] == if j < i then Shifted(was, adjust)[j] else was[j]
        invariant forall j :: 0 <= j < |was| ==> was[j].w.at == if j < i then was[j].at + adjust else was[j].at
      {
        DistinctAt(was, i);
        assert was[i] in was;
        var w := timers[i].w;
        w.at := w.at + adjust;
        timers := timers[i := Entry(w.at, w)];
      }
      assert timers == Shifted(was, adjust);
      ShiftedKeeps(was, adjust);
      forall e | e in timers ensures e.w in Members(timers) && e.at == e.w.at {
        var i :| 0 <= i < |timers| && timers[i] == e;
      }
    }
  }

  /** One entry more, and the rest only reordered. */
  ghost predicate Added(h: Entries, g: Entries, e: Entry<Watcher>) { multiset(g) == multiset(h) + multiset{e} }

  /** One entry less, and the rest only reordered. */
  ghost predicate Dropped(h: Entries, g: Entries, e: Entry<Watcher>) { multiset(g) == multiset(h) - multiset{e} }

  /** One entry is replaced by another and the rest only reordered. */
  ghost predicate Swapped(h: Entries, g: Entries, e: Entry<Watcher>, f: Entry<Watcher>) {
    multiset(g) == multiset(h) - multiset{e} + multiset{f}
  }

  /** The time a watcher shows after its expiry was dealt with. */
  function Renewed(at: real, repeat: real, now: real): real {
    if repeat == 0.0 then at - now else if at + repeat < now then now else at + repeat
  }

  ghost function Times(ws: set<Watcher>): map<Watcher, real>
    reads ws`at
  {
    map w | w in ws :: w.at
  }

  ghost predicate SortedBy(ws: seq<Watcher>, at: map<Watcher, real>) {
    && (forall w :: w in ws ==> w in at)
    && forall i, j :: 0 <= i < j < |ws| ==> at[ws[i]] <= at[ws[j]]
  }

  /** Of the watchers ws, those fed show their new time in cur and all others the time they had. */
  ghost predicate RenewedAll(ws: set<Watcher>, cur: map<Watcher, real>, fed: seq<Watcher>, at: map<Watcher, real>, now: real)
    reads ws`repeat
  {
    forall w | w in ws :: w in at && w in cur && cur[w] == if w in fed then Renewed(at[w], w.repeat, now) else at[w]
  }

  /** Only timers of ws that were due are fed. */
  ghost predicate DueOf(fed: seq<Watcher>, ws: set<Watcher>, at: map<Watcher, real>, now: real) {
    forall w | w in fed :: w in ws && w in at && at[w] < now
  }

  lemma NoneFed(all: set<Watcher>, ws: set<Watcher>, now: real)
    ensures SortedBy([], Times(ws)) && Unique<Watcher>([]) && DueOf([], all * ws, Times(ws), now)
    ensures RenewedAll(ws, Times(ws), [], Times(ws), now) && Surviving(all, []) == all
  {
  }

  /** The earliest timer, if due, was not fed before, and those fed were not later. */
  lemma RootUnfed(h: Entries, ws: set<Watcher>, all: set<Watcher>, fed: seq<Watcher>, at: map<Watcher, real>, now: real)
    requires Heap(h) && Cached(h) && h != [] && h[0].at < now && Members(h) <= ws
    requires RenewedAll(ws, Times(ws), fed, at, now) && Members(h) == Surviving(all, fed)
    requires fed != [] ==> fed[|fed| - 1] in at && NoneBefore(Members(h), at[fed[|fed| - 1]])
    ensures var w := h[0].w;
      && w !in fed && w in all && w in ws && w in at && w.at == at[w] < now
      && (fed != [] ==> fed[|fed| - 1] in at && at[fed[|fed| - 1]] <= at[w])
  {
    hide Heap, Cached, Members;
    RootFirst(h);
  }

  /** Renewing one more watcher and leaving the others alone. */
  lemma RenewedMore(ws: set<Watcher>, was: map<Watcher, real>, fed: seq<Watcher>, w: Watcher, at: map<Watcher, real>, now: real)
    requires RenewedAll(ws, was, fed, at, now) && w in ws && w !in fed && w.at == Renewed(was[w], w.repeat, now)
    requires forall x | x in ws && x != w :: x.at == was[x]
    ensures RenewedAll(ws, Times(ws), fed + [w], at, now)
  {
    hide Renewed;
  }

  lemma DueMore(fed: seq<Watcher>, w: Watcher, ws: set<Watcher>, at: map<Watcher, real>, now: real)
    requires DueOf(fed, ws, at, now) && w in ws && w in at && at[w] < now
    ensures DueOf(fed + [w], ws, at, now)
  {
  }

  /** With nothing due left, exactly the timers that were due are fed. */
  lemma AllFed(left: set<Watcher>, ws: set<Watcher>, all: set<Watcher>, fed: seq<Watcher>, at: map<Watcher, real>, now: real)
    requires NoneBefore(left, now) && left == Surviving(all, fed) && left <= ws
    requires RenewedAll(ws, Times(ws), fed, at, now) && DueOf(fed, all * ws, at, now)
    ensures forall w | w in ws :: w in at && w.at == if w in fed then Renewed(at[w], w.repeat, now) else at[w]
    ensures forall w :: w in fed <==> w in all && w in ws && at[w] < now
  {
    hide Renewed;
  }

  lemma OneMore(ws: seq<Watcher>, w: Watcher, at: map<Watcher, real>)
    requires SortedBy(ws, at) && Unique(ws) && w !in ws && w in at
    requires ws != [] ==> ws[|ws| - 1] in at && at[ws[|ws| - 1]] <= at[w]
    ensures SortedBy(ws + [w], at) && Unique(ws + [w])
  {
    var n := |ws|;
    forall i | 0 <= i < n ensures at[ws[i]] <= at[w] {
      assert ws[i] in ws && ws[n - 1] in ws;
    }
  }

  /** The members left once the watchers without a repeat among ws are stopped. */
  ghost function Surviving(all: set<Watcher>, ws: seq<Watcher>): set<Watcher>
    reads all`repeat
  {
    set w | w in all && !(w in ws && w.repeat == 0.0)
  }

  ghost function Unfed(all: set<Watcher>, ws: seq<Watcher>): set<Watcher> { set w | w in all && w !in ws }

  lemma SurvivingMore(all: set<Watcher>, ws: seq<Watcher>, w: Watcher)
    ensures w in Surviving(all, ws) <==> w in all && !(w in ws && w.repeat == 0.0)
    ensures Surviving(all, ws + [w]) == if w.repeat == 0.0 then Surviving(all, ws) - {w} else Surviving(all, ws)
    ensures w in all && w !in ws ==> Unfed(all, ws + [w]) < Unfed(all, ws)
  {
    if w in all && w !in ws {
      assert w in Unfed(all, ws);
    }
  }

  /** Picking out a priority keeps the order. */
  lemma {:induction false} OfPrioritySorted(ws: seq<Watcher>, p: nat, at: map<Watcher, real>)
    requires SortedBy(ws, at)
    ensures SortedBy(OfPriority(ws, p), at)
  {
    if ws != [] {
      OfPrioritySorted(ws[1..], p, at);
      var rest := OfPriority(ws[1..], p);
      forall w | w in rest ensures at[ws[0]] <= at[w] {
        OfPriorityIn(ws[1..], p, w);
        var i :| 0 < i < |ws| && ws[i] == w;
      }
    }
  }

  ghost predicate NoneBefore(ws: set<Watcher>, at: real)
    reads ws`at
  {
    forall w :: w in ws ==> at <= w.at
  }

  lemma RootFirst(h: Entries)
    requires Heap(h) && Cached(h) && h != []
    ensures h[0].w in Members(h) && h[0].at == h[0].w.at && NoneBefore(Members(h), h[0].at)
  {
    assert h[0] in h;
    forall w | w in Members(h) ensures h[0].at <= w.at {
      var e :| e in h && e.w == w;
      var i :| 0 <= i < |h| && h[i] == e;
      RootIsEarliest(h, i);
    }
  }

  lemma EarliestIsLater(h: Entries, now: real)
    requires Heap(h) && Cached(h) && (h != [] ==> now <= h[0].at)
    ensures (forall e | e in h :: now <= e.at) && NoneBefore(Members(h), now)
  {
    forall e | e in h ensures now <= e.at {
      var i :| 0 <= i < |h| && h[i] == e;
      RootIsEarliest(h, i);
    }
  }

  lemma DistinctAt(h: Entries, i: nat)
    requires Distinct(h) && i < |h|
    ensures forall j :: 0 <= j < |h| && j != i ==> h[j].w != h[i].w
  {
  }

  lemma CachedAll(h: Entries)
    requires Cached(h)
    ensures forall i :: 0 <= i < |h| ==> h[i].at == h[i].w.at
  {
    forall i | 0 <= i < |h| ensures h[i].at == h[i].w.at {
      assert h[i] in h;
    }
  }

  lemma MembersAfterStop(h: Entries, g: Entries, w: Watcher, at: real)
    requires Distinct(h) && Entry(at, w) in h && Dropped(h, g, Entry(at, w))
    ensures Members(g) == Members(h) - {w}
  {
    forall e | e in g ensures e in h && e.w != w {
      assert e in multiset(g);
      if e.w == w {
        OnlyEntry(h, e, Entry(at, w));
      }
    }
    forall e | e in h && e.w != w ensures e in g {
      assert e in multiset(h) && e in multiset(g);
    }
  }

  lemma OnlyEntry(h: Entries, e: Entry<Watcher>, f: Entry<Watcher>)
    requires Distinct(h) && e in h && f in h && e.w == f.w
    ensures e == f && multiset(h)[f] == 1
  {
    var i :| 0 <= i < |h| && h[i] == e;
    var j :| 0 <= j < |h| && h[j] == f;
    assert i == j;
    assert h == h[..i] + [h[i]] + h[i + 1..];
    assert f !in h[..i] && f !in h[i + 1..];
  }

  lemma SameWatchers(h: Entries, g: Entries)
    requires |g| == |h| && forall i :: 0 <= i < |h| ==> g[i].w == h[i].w
    ensures Members(g) == Members(h)
  {
    forall x | x in Members(h) ensures x in Members(g) {
      var e :| e in h && e.w == x;
      var i :| 0 <= i < |h| && h[i] == e;
      assert g[i].w == x;
    }
    forall x | x in Members(g) ensures x in Members(h) {
      var e :| e in g && e.w == x;
      var i :| 0 <= i < |g| && g[i] == e;
      assert h[i].w == x;
    }
  }

  lemma Rekeyed(h: Entries, k: nat, at: real)
    requires k < |h| && PlacedBut(h, -1) && Distinct(h) && h[k].w.at == at
    requires forall i :: 0 <= i < |h| && i != k ==> h[i].at == h[i].w.at
    ensures var g := h[k := Entry(at, h[k].w)];
      && PlacedBut(g, k) && Distinct(g) && Cached(g) && Members(g) == Members(h)
      && multiset(g) == multiset(h) - multiset{h[k]} + multiset{g[k]}
  {
    var g := h[k := Entry(at, h[k].w)];
    SameWatchers(h, g);
    forall i | 0 <= i < |g| ensures g[i].w in Members(g) {
      assert g[i] in g;
    }
    forall e | e in g ensures e.w in Members(g) && e.at == e.w.at {
      var i :| 0 <= i < |g| && g[i] == e;
    }
  }

  /** Sifting the new entry into place gives a heap of the same watchers. */
  lemma RekeyedAdjusts(h: Entries, k: nat, at: real)
    requires k < |h| && PlacedBut(h, -1) && Distinct(h) && Heap(h) && h[k].w.at == at
    requires forall i :: 0 <= i < |h| && i != k ==> h[i].at == h[i].w.at
    ensures var g := h[k := Entry(at, h[k].w)];
      && PlacedBut(g, k) && Distinct(g) && Members(g) == Members(h)
      && Heap(Adjust(g, k)) && Cached(Adjust(g, k))
      && Swapped(h, Adjust(g, k), h[k], g[k])
  {
    hide Distinct, Adjust, Heap, PlacedBut, Members, Cached;
    var g := h[k := Entry(at, h[k].w)];
    Rekeyed(h, k, at);
    AdjustRepairs(h, k, Entry(at, h[k].w));
    AdjustRearranges(g, k);
    CachedRearranged(g, Adjust(g, k));
  }

  /** All times moved by the same amount. */
  function Shifted(h: Entries, d: real): (r: Entries)
    ensures |r| == |h| && forall i :: 0 <= i < |h| ==> r[i] == Entry(h[i].at + d, h[i].w)
  {
    seq(|h|, i requires 0 <= i < |h| => Entry(h[i].at + d, h[i].w))
  }

  lemma ShiftedKeeps(h: Entries, d: real)
    requires Heap(h) && Distinct(h) && PlacedBut(h, -1)
    ensures var g := Shifted(h, d); Heap(g) && Distinct(g) && PlacedBut(g, -1) && Members(g) == Members(h)
  {
    var g := Shifted(h, d);
    forall i | 0 < i < |g| ensures Edge(g, i) {
      assert Edge(h, i);
    }
    SameWatchers(h, g);
    forall i | 0 <= i < |g| ensures g[i].w in Members(g) {
      assert g[i] in g;
    }
  }

  ghost predicate Cached(h: Entries)
    reads Members(h)`at
  {
    forall e :: e in h ==> e.w in Members(h) && e.at == e.w.at
  }

  lemma CachedRearranged(h: Entries, g: Entries)
    requires multiset(g) == multiset(h) && Cached(h)
    ensures Cached(g)
  {
    forall e | e in g ensures e.w in Members(g) && e.at == e.w.at {
      assert e in multiset(h);
    }
  }

  lemma Inactive(h: Entries, w: Watcher)
    requires PlacedBut(h, -1)
    ensures w.active == 0 ==> w !in Members(h)
  {
  }

  lemma Found(h: Entries, w: Watcher)
    requires PlacedBut(h, -1) && Cached(h) && w in Members(h)
    ensures HEAP0 <= w.active < HEAP0 + |h| && h[w.active - HEAP0] == Entry(w.at, w)
  {
    var e :| e in h && e.w == w;
    var i :| 0 <= i < |h| && h[i] == e;
  }

  lemma MembersSplit(h: Entries, e: Entry<Watcher>)
    ensures Members(h + [e]) == Members(h) + {e.w}
  {
    forall x | x in Members(h) + {e.w} ensures x in Members(h + [e]) {
      if x == e.w {
        assert e in h + [e];
      } else {
        var y :| y in h && y.w == x;
        assert y in h + [e];
      }
    }
  }

  lemma Absent(h: Entries, e: Entry<Watcher>)
    requires Distinct(h + [e])
    ensures e.w !in Members(h) && Distinct(h)
  {
    var g := h + [e];
    forall y | y in h ensures y.w != e.w {
      var i :| 0 <= i < |h| && h[i] == y;
      assert g[i] == y && g[|h|] == e;
    }
    assert forall i | 0 <= i < |h| :: h[i] == g[i];
  }

  /** Without the last entry everything else is still in place. */
  lemma Shorter(h: Entries)
    requires h != [] && PlacedBut(h, -1) && Distinct(h) && Cached(h) && Heap(h)
    ensures var g, e := h[..|h| - 1], h[|h| - 1];
      && PlacedBut(g, -1) && Distinct(g) && Cached(g) && Heap(g)
      && Members(g) == Members(h) - {e.w} && Dropped(h, g, e)
  {
    hide Distinct, Heap;
    var g, e := h[..|h| - 1], h[|h| - 1];
    assert h == g + [e];
    DropKeepsHeap(h);
    MembersSplit(g, e);
    Absent(g, e);
    forall i | 0 <= i < |g| ensures g[i].w in Members(g) && g[i].w.active == HEAP0 + i {
      assert g[i] in g && g[i] == h[i];
    }
    forall x | x in g ensures x.w in Members(g) && x.at == x.w.at {
      assert x in h;
    }
  }

  lemma OverwrittenCount(f: Entries, e: Entry<Watcher>, k: nat)
    requires k < |f|
    ensures multiset(f[k := e]) == multiset(f + [e]) - multiset{f[k]}
  {
    assert multiset(f[k := e]) == multiset(f) - multiset{f[k]} + multiset{e};
  }

  lemma OverwrittenMembers(f: Entries, e: Entry<Watcher>, k: nat)
    requires k < |f| && Distinct(f + [e])
    ensures Distinct(f[k := e]) && Members(f[k := e]) == Members(f + [e]) - {f[k].w}
  {
    var g, h := f[k := e], f + [e];
    assert forall i | 0 <= i < |f| :: h[i] == f[i];
    assert h[|f|] == e;
    forall x | x in g ensures x in h && x.w != f[k].w {
      var i :| 0 <= i < |g| && g[i] == x;
      assert x == if i == k then h[|f|] else h[i];
    }
    forall x | x in h && x.w != f[k].w ensures x in g {
      var i :| 0 <= i < |h| && h[i] == x;
      assert x == if i == |f| then g[k] else g[i];
    }
  }

  /** The last entry written over the one at k: all but it in place, and that one gone. */
  lemma Overwritten(h: Entries, k: nat)
    requires k < |h| - 1 && PlacedBut(h, -1) && Distinct(h) && Cached(h)
    ensures var g := h[..|h| - 1][k := h[|h| - 1]];
      && PlacedBut(g, k) && Distinct(g) && Cached(g)
      && Members(g) == Members(h) - {h[k].w} && Dropped(h, g, h[k])
  {
    hide Distinct;
    var f, e := h[..|h| - 1], h[|h| - 1];
    var g := f[k := e];
    assert h == f + [e];
    OverwrittenCount(f, e, k);
    OverwrittenMembers(f, e, k);
    forall i | 0 <= i < |g| && i != k ensures g[i].w in Members(g) && g[i].w.active == HEAP0 + i {
      assert g[i] in g && g[i] == h[i];
    }
    forall x | x in g ensures x.w in Members(g) && x.at == x.w.at {
      var i :| 0 <= i < |g| && g[i] == x;
      assert x == if i == k then h[|h| - 1] else h[i];
    }
  }

  /** Sifting it into place gives a heap without the one that was at k. */
  lemma OverwrittenAdjusts(h: Entries, k: nat)
    requires k < |h| - 1 && PlacedBut(h, -1) && Distinct(h) && Cached(h) && Heap(h)
    ensures var g := h[..|h| - 1][k := h[|h| - 1]];
      && PlacedBut(g, k) && Distinct(g) && Members(g) == Members(h) - {h[k].w}
      && Heap(Adjust(g, k)) && Cached(Adjust(g, k)) && Dropped(h, Adjust(g, k), h[k])
  {
    hide Distinct, Adjust, Heap, PlacedBut, Members, Cached;
    var f, e := h[..|h| - 1], h[|h| - 1];
    Shorter(h);
    Overwritten(h, k);
    AdjustRepairs(f, k, e);
    AdjustRearranges(f[k := e], k);
    CachedRearranged(f[k := e], Adjust(f[k := e], k));
  }

  lemma PushedPlaced(h: Entries, e: Entry<Watcher>)
    requires PlacedBut(h, -1) && Distinct(h) && Cached(h) && e.w !in Members(h) && e.at == e.w.at
    ensures PlacedBut(h + [e], |h|) && Distinct(h + [e]) && Cached(h + [e]) && Members(h + [e]) == Members(h) + {e.w}
  {
    var g := h + [e];
    forall i | 0 <= i < |h| ensures g[i].w in Members(g) && g[i].w == h[i].w && g[i].w in Members(h) {
      assert g[i] in g && h[i] in h;
    }
    forall x | x in Members(g) ensures x in Members(h) + {e.w} {
      var y :| y in g && y.w == x;
    }
  }

  lemma OrderedIsHeap(h: Entries)
    requires Ordered(h, |h|)
    ensures Heap(h)
  {
  }

  lemma SameMinChild(h: Entries, k: nat, he: Entry<Watcher>)
    requires k < |h| && 4 * k + 1 < |h|
    ensures MinChild(h[k := he], k) == MinChild(h, k) && h[k := he][MinChild(h, k)] == h[MinChild(h, k)]
  {
  }

  lemma Member(h: Entries, i: nat)
    requires i < |h|
    ensures h[i].w in Members(h)
  {
  }
}
