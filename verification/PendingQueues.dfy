/**
 libev's per-priority queues of pending events, on values: what `ev_feed_event`, `clear_pending`
 and the callbacks run by `ev_invoke_pending` make of them.
 */
module PendingQueues {
  import opened Basics

  /** NUMPRI: priorities EV_MINPRI to EV_MAXPRI, shifted to 0..4. */
  const NUMPRI: nat := 5

  /** The event bits; a mask is a set of them. */
  datatype Flag = Read | Write | Timer | Async | Signal | Custom | Error

  type Mask = set<Flag>

  /**
   The fields of a watcher the loop keeps: those of every watcher, of an `ev_timer` and of an `ev_io`.
   Priority, descriptor and wanted events may only change while a watcher is neither active nor
   pending, so they are fixed here; the priority is already clamped by `pri_adjust`.
   */
  class Watcher {
    const priority: nat
    var pending: nat
    var active: nat
    var at: real
    var repeat: real
    const fd: nat
    const want: Mask
    var fdset: bool             // EV__IOFDSET in the events of an ev_io

    constructor (priority: nat, after: real, repeat: real, fd: nat, want: Mask)
      ensures this.priority == priority && pending == 0 && active == 0 && at == after && this.repeat == repeat
      ensures this.fd == fd && this.want == want && fdset
    {
      this.priority, this.fd, this.want, fdset := priority, fd, want, true;
      pending, active, at, this.repeat := 0, 0, after, repeat;
    }
  }

  /** `ANPENDING`. */
  datatype Slot = Slot(w: Watcher, events: Mask)

  type Queue = seq<Slot>

  /** One queue per priority. */
  type Queues = q: seq<Queue> | |q| == NUMPRI witness [[], [], [], [], []]

  /** One past the position of w, or 0: what `w->pending` caches. */
  function Find(q: Queue, w: Watcher): (i: nat)
    ensures i <= |q| && (i > 0 ==> q[i - 1].w == w)
  {
    if q == [] then 0 else if q[|q| - 1].w == w then |q| else Find(q[..|q| - 1], w)
  }

  lemma {:induction false} FindNone(q: Queue, w: Watcher)
    ensures Find(q, w) == 0 <==> forall s | s in q :: s.w != w
  {
    if q != [] {
      FindNone(q[..|q| - 1], w);
      assert forall s :: s in q <==> s in q[..|q| - 1] || s == q[|q| - 1];
    }
  }

  /** `ev_feed_event`: events of a queued watcher are added up. */
  function Feed(qs: Queues, w: Watcher, events: Mask): Queues
    requires w.priority < NUMPRI
  {
    var q := qs[w.priority];
    var i := Find(q, w);
    qs[w.priority := if i > 0 then q[i - 1 := Slot(w, q[i - 1].events + events)] else q + [Slot(w, events)]]
  }

  /** `clear_pending`: the slot goes to the dummy watcher. */
  function Clear(qs: Queues, w: Watcher, dummy: Watcher): Queues
    requires w.priority < NUMPRI
  {
    var q := qs[w.priority];
    var i := Find(q, w);
    if i > 0 then qs[w.priority := q[i - 1 := Slot(dummy, q[i - 1].events)]] else qs
  }

  /** What a callback may do to the queues. */
  datatype Op = FeedOp(w: Watcher, events: Mask) | ClearOp(w: Watcher)

  predicate Legal(op: Op, dummy: Watcher) { op.w.priority < NUMPRI && op.w != dummy }

  function Perform(qs: Queues, ops: seq<Op>, dummy: Watcher): Queues
    requires forall op | op in ops :: Legal(op, dummy)
    decreases |ops|
  {
    if ops == [] then qs
    else
      var op := ops[0];
      assert Legal(op, dummy);
      Perform(if op.FeedOp? then Feed(qs, op.w, op.events) else Clear(qs, op.w, dummy), ops[1..], dummy)
  }

  // ---------------------------------------------------------------- the reference scheduler

  predicate AllEmpty(qs: Queues) { forall p | 0 <= p < NUMPRI :: qs[p] == [] }

  /** The highest priority with something queued. */
  function Top(qs: Queues): (p: nat)
    requires !AllEmpty(qs)
    ensures p < NUMPRI && qs[p] != [] && forall r | p < r < NUMPRI :: qs[r] == []
  {
    if qs[4] != [] then 4 else if qs[3] != [] then 3 else if qs[2] != [] then 2 else if qs[1] != [] then 1 else 0
  }

  /** Nothing is queued above priority p. */
  ghost predicate EmptyAbove(qs: Queues, p: int) { forall r :: p < r < NUMPRI && 0 <= r ==> qs[r] == [] }

  function Pop(qs: Queues, p: nat): Queues
    requires p < NUMPRI && qs[p] != []
  {
    qs[p := qs[p][..|qs[p]| - 1]]
  }

  function Count(qs: Queues): nat {
    |qs[0]| + |qs[1]| + |qs[2]| + |qs[3]| + |qs[4]|
  }

  ghost predicate LegalScript(script: seq<seq<Op>>, dummy: Watcher) {
    forall ops, op | ops in script && op in ops :: Legal(op, dummy)
  }

  /**
   The events invoked, in order, when every time the newest event of the highest nonempty priority
   runs next and the i-th callback performs `script[i]`.
   */
  function Schedule(qs: Queues, script: seq<seq<Op>>, dummy: Watcher): seq<Slot>
    requires LegalScript(script, dummy)
    decreases |script|, Count(qs)
  {
    if AllEmpty(qs) then []
    else
      var p := Top(qs);
      var s, rest := qs[p][|qs[p]| - 1], Pop(qs, p);
      if s.w == dummy then Schedule(rest, script, dummy)
      else if script == [] then [s] + Schedule(rest, [], dummy)
      else
        assert script[0] in script;
        [s] + Schedule(Perform(rest, script[0], dummy), script[1..], dummy)
  }

  /** The reference scheduler takes the newest slot at p when nothing is queued above p. */
  lemma ScheduleAt(qs: Queues, p: nat, script: seq<seq<Op>>, dummy: Watcher)
    requires LegalScript(script, dummy) && p < NUMPRI && qs[p] != [] && EmptyAbove(qs, p)
    ensures Count(Pop(qs, p)) < Count(qs)
    ensures var s, rest := qs[p][|qs[p]| - 1], Pop(qs, p);
      if s.w == dummy then Schedule(qs, script, dummy) == Schedule(rest, script, dummy)
      else if script == [] then Schedule(qs, script, dummy) == [s] + Schedule(rest, [], dummy)
      else
        && (forall op | op in script[0] :: Legal(op, dummy))
        && LegalScript(script[1..], dummy)
        && Schedule(qs, script, dummy) == [s] + Schedule(Perform(rest, script[0], dummy), script[1..], dummy)
  {
    assert Top(qs) == p;
    assert script != [] ==> script[0] in script;
  }

  lemma NothingScheduled(qs: Queues, script: seq<seq<Op>>, dummy: Watcher)
    requires LegalScript(script, dummy) && EmptyAbove(qs, -1)
    ensures AllEmpty(qs) && Schedule(qs, script, dummy) == []
  {
  }

  // ---------------------------------------------------------------- what the queues keep

  /** No watcher but the dummy stands twice in a queue. */
  ghost predicate Single(q: Queue, dummy: Watcher) {
    forall i, j :: 0 <= i < j < |q| && q[i].w == q[j].w ==> q[i].w == dummy
  }

  /** Every slot holds the dummy or a watcher of the queue's priority that the loop knows. */
  ghost predicate Homed(q: Queue, p: nat, dummy: Watcher, known: set<Watcher>) {
    forall s :: s in q ==> s.w == dummy || (s.w in known && s.w.priority == p)
  }

  ghost predicate WellFormed(qs: Queues, dummy: Watcher, known: set<Watcher>) {
    && dummy !in known
    && forall p :: 0 <= p < NUMPRI ==> Single(qs[p], dummy) && Homed(qs[p], p, dummy, known)
  }

  lemma {:induction false} FindUnique(q: Queue, w: Watcher, dummy: Watcher, i: nat)
    requires Single(q, dummy) && w != dummy && i < |q| && q[i].w == w
    ensures Find(q, w) == i + 1
  {
    if i < |q| - 1 {
      FindUnique(q[..|q| - 1], w, dummy, i);
    }
  }

  /** Replacing a slot moves no other watcher. */
  lemma {:induction false} FindOther(q: Queue, i: nat, s: Slot, w: Watcher)
    requires i < |q| && w != q[i].w && w != s.w
    ensures Find(q[i := s], w) == Find(q, w)
  {
    if i < |q| - 1 {
      assert q[i := s][..|q| - 1] == q[..|q| - 1][i := s];
      FindOther(q[..|q| - 1], i, s, w);
    } else {
      assert q[i := s][..|q| - 1] == q[..|q| - 1];
    }
  }

  lemma FindAppended(q: Queue, s: Slot, w: Watcher)
    ensures Find(q + [s], w) == if s.w == w then |q| + 1 else Find(q, w)
  {
    assert (q + [s])[..|q|] == q;
  }

  lemma FeedKeeps(qs: Queues, w: Watcher, events: Mask, dummy: Watcher, known: set<Watcher>)
    requires WellFormed(qs, dummy, known) && w in known && w.priority < NUMPRI
    ensures WellFormed(Feed(qs, w, events), dummy, known)
  {
    FindNone(qs[w.priority], w);
  }

  lemma ClearKeeps(qs: Queues, w: Watcher, dummy: Watcher, known: set<Watcher>)
    requires WellFormed(qs, dummy, known) && w in known && w.priority < NUMPRI
    ensures WellFormed(Clear(qs, w, dummy), dummy, known)
  {
  }

  lemma PopKeeps(qs: Queues, p: nat, dummy: Watcher, known: set<Watcher>)
    requires WellFormed(qs, dummy, known) && p < NUMPRI && qs[p] != []
    ensures WellFormed(Pop(qs, p), dummy, known)
  {
  }

  /** The events waiting for w. */
  function Pending(q: Queue, w: Watcher): Mask {
    var i := Find(q, w);
    if i > 0 then q[i - 1].events else {}
  }

  /** Feeding adds the events to what waits for that watcher and changes nothing for any other. */
  lemma FeedAdds(qs: Queues, w: Watcher, events: Mask, dummy: Watcher, x: Watcher)
    requires w.priority < NUMPRI && Single(qs[w.priority], dummy) && w != dummy && x != dummy
    ensures var q, r := qs[w.priority], Feed(qs, w, events)[w.priority];
      && Find(r, w) == (if Find(q, w) > 0 then Find(q, w) else |q| + 1)
      && Pending(r, w) == Pending(q, w) + events
      && (x != w ==> Find(r, x) == Find(q, x) && Pending(r, x) == Pending(q, x))
  {
    hide Single, Find;
    var q := qs[w.priority];
    var i := Find(q, w);
    if i > 0 {
      var s := Slot(w, q[i - 1].events + events);
      FindSame(q, i - 1, s, w);
      if x != w {
        FindOther(q, i - 1, s, x);
      }
    } else {
      FindAppended(q, Slot(w, events), x);
      FindAppended(q, Slot(w, events), w);
    }
  }

  /** Clearing takes that watcher out and changes nothing for any other. */
  lemma ClearRemoves(qs: Queues, w: Watcher, dummy: Watcher, x: Watcher)
    requires w.priority < NUMPRI && Single(qs[w.priority], dummy) && w != dummy && x != dummy
    ensures var q, r := qs[w.priority], Clear(qs, w, dummy)[w.priority];
      && Find(r, w) == 0
      && (x != w ==> Find(r, x) == Find(q, x) && Pending(r, x) == Pending(q, x))
  {
    hide Single, Find;
    var q := qs[w.priority];
    var i := Find(q, w);
    if i > 0 {
      FindGone(q, i - 1, Slot(dummy, q[i - 1].events), w, dummy);
      if x != w {
        FindOther(q, i - 1, Slot(dummy, q[i - 1].events), x);
      }
    }
  }

  lemma {:induction false} FindSame(q: Queue, i: nat, s: Slot, w: Watcher)
    requires i < |q| && q[i].w == w == s.w
    ensures Find(q[i := s], w) == Find(q, w)
  {
    if i < |q| - 1 {
      assert q[i := s][..|q| - 1] == q[..|q| - 1][i := s];
      FindSame(q[..|q| - 1], i, s, w);
    }
  }

  lemma FindGone(q: Queue, i: nat, s: Slot, w: Watcher, dummy: Watcher)
    requires Single(q, dummy) && i < |q| && q[i].w == w && w != dummy && s.w == dummy
    ensures Find(q[i := s], w) == 0
  {
    var r := q[i := s];
    FindNone(r, w);
    forall t | t in r ensures t.w != w {
      var j :| 0 <= j < |r| && r[j] == t;
    }
  }

  /** Taking the last slot takes out just its watcher. */
  lemma PopRemoves(q: Queue, dummy: Watcher, x: Watcher)
    requires q != [] && Single(q, dummy) && x != dummy
    ensures var r, w := q[..|q| - 1], q[|q| - 1].w;
      && (x == w ==> Find(r, x) == 0)
      && (x != w ==> Find(r, x) == Find(q, x) && Pending(r, x) == Pending(q, x))
  {
    var r := q[..|q| - 1];
    FindNone(r, x);
    if x == q[|q| - 1].w {
      forall t | t in r ensures t.w != x {
        var j :| 0 <= j < |r| && r[j] == t;
      }
    }
  }

  /** Clearing a watcher and feeding it afresh: it waits with just those events, and nothing changes for others. */
  lemma Refed(qs: Queues, w: Watcher, events: Mask, dummy: Watcher, known: set<Watcher>, x: Watcher)
    requires WellFormed(qs, dummy, known) && w in known && w.priority < NUMPRI && x in known && x.priority < NUMPRI
    ensures var r := Feed(Clear(qs, w, dummy), w, events);
      Pending(r[x.priority], x) == if x == w then events else Pending(qs[x.priority], x)
  {
    hide Find, Single, Homed, Pending, Feed, Clear;
    var c := Clear(qs, w, dummy);
    ClearKeeps(qs, w, dummy, known);
    if x.priority == w.priority {
      ClearRemoves(qs, w, dummy, x);
      FeedAdds(c, w, events, dummy, x);
      NothingWaits(c[w.priority], w);
    } else {
      Elsewhere(qs, w, events, dummy, x);
      Elsewhere(c, w, events, dummy, x);
    }
  }

  lemma NothingWaits(q: Queue, w: Watcher)
    ensures Find(q, w) == 0 ==> Pending(q, w) == {}
  {
  }

  /** Other priorities are left alone. */
  lemma Elsewhere(qs: Queues, w: Watcher, events: Mask, dummy: Watcher, x: Watcher)
    requires w.priority < NUMPRI && x.priority < NUMPRI && x.priority != w.priority
    ensures Clear(qs, w, dummy)[x.priority] == qs[x.priority] && Feed(qs, w, events)[x.priority] == qs[x.priority]
  {
  }

  // ---------------------------------------------------------------- reverse feeding

  /** `feed_reverse_done`: the watchers are fed from the last to the first. */
  function FeedReverse(qs: Queues, ws: seq<Watcher>, events: Mask): Queues
    requires forall w | w in ws :: w.priority < NUMPRI
  {
    if ws == [] then qs
    else
      assert ws[0] in ws;
      Feed(FeedReverse(qs, ws[1..], events), ws[0], events)
  }

  function OfPriority(ws: seq<Watcher>, p: nat): seq<Watcher> {
    if ws == [] then []
    else if ws[0].priority == p then [ws[0]] + OfPriority(ws[1..], p) else OfPriority(ws[1..], p)
  }

  function Slots(ws: seq<Watcher>, events: Mask): (ss: seq<Slot>)
    ensures |ss| == |ws|
  {
    if ws == [] then [] else [Slot(ws[0], events)] + Slots(ws[1..], events)
  }

  function Reversed<T>(s: seq<T>): (r: seq<T>)
    ensures |r| == |s|
  {
    if s == [] then [] else Reversed(s[1..]) + [s[0]]
  }

  /** None of the watchers is queued yet. */
  ghost predicate NonePending(qs: Queues, ws: seq<Watcher>) {
    forall w :: w in ws ==> w.priority < NUMPRI && Find(qs[w.priority], w) == 0
  }

  lemma {:induction false} FedFind(q: Queue, ws: seq<Watcher>, p: nat, w: Watcher, events: Mask)
    requires w !in ws && Find(q, w) == 0
    ensures Find(q + Reversed(Slots(OfPriority(ws, p), events)), w) == 0
  {
    if ws == [] {
      assert q + [] == q;
    } else {
      FedFind(q, ws[1..], p, w, events);
      var rest := Slots(OfPriority(ws[1..], p), events);
      if ws[0].priority == p {
        assert Slots(OfPriority(ws, p), events)[1..] == rest;
        assert q + (Reversed(rest) + [Slot(ws[0], events)]) == (q + Reversed(rest)) + [Slot(ws[0], events)];
        FindAppended(q + Reversed(rest), Slot(ws[0], events), w);
      }
    }
  }

  /** Fed in reverse, the watchers of a priority lie on top of its queue with the first one uppermost. */
  lemma {:induction false} FedQueues(qs: Queues, ws: seq<Watcher>, events: Mask, p: nat)
    requires NonePending(qs, ws) && Unique(ws) && p < NUMPRI
    ensures FeedReverse(qs, ws, events)[p] == qs[p] + Reversed(Slots(OfPriority(ws, p), events))
    decreases |ws|
  {
    if ws == [] {
      assert qs[p] + [] == qs[p];
    } else {
      var w := ws[0];
      FedQueues(qs, ws[1..], events, p);
      FedQueues(qs, ws[1..], events, w.priority);
      assert w !in ws[1..];
      FedFind(qs[w.priority], ws[1..], w.priority, w, events);
      if w.priority == p {
        var rest := Slots(OfPriority(ws[1..], p), events);
        assert Slots(OfPriority(ws, p), events)[1..] == rest;
        assert qs[p] + (Reversed(rest) + [Slot(w, events)]) == (qs[p] + Reversed(rest)) + [Slot(w, events)];
      }
    }
  }

  /** The slots of a queue from the newest down, without the dummy's. */
  function Drained(q: Queue, dummy: Watcher): seq<Slot> {
    if q == [] then []
    else
      var s, rest := q[|q| - 1], Drained(q[..|q| - 1], dummy);
      if s.w == dummy then rest else [s] + rest
  }

  /** Priority after priority from p down. */
  function DrainedFrom(qs: Queues, p: int, dummy: Watcher): seq<Slot>
    requires p < NUMPRI
    decreases p + 1
  {
    if p < 0 then [] else Drained(qs[p], dummy) + DrainedFrom(qs, p - 1, dummy)
  }

  lemma {:induction false} DrainedPop(qs: Queues, p: nat, n: int, dummy: Watcher)
    requires n < p < NUMPRI && qs[p] != []
    ensures DrainedFrom(Pop(qs, p), n, dummy) == DrainedFrom(qs, n, dummy)
    decreases n + 1
  {
    if n >= 0 {
      DrainedPop(qs, p, n - 1, dummy);
    }
  }

  /** Callbacks that leave the queues alone see them drained priority by priority. */
  lemma {:induction false} ScheduleDrains(qs: Queues, p: int, dummy: Watcher)
    requires -1 <= p < NUMPRI && EmptyAbove(qs, p)
    ensures Schedule(qs, [], dummy) == DrainedFrom(qs, p, dummy)
    decreases Count(qs), p + 1
  {
    hide Schedule;
    if p < 0 {
      NothingScheduled(qs, [], dummy);
    } else if qs[p] == [] {
      ScheduleDrains(qs, p - 1, dummy);
      assert [] + DrainedFrom(qs, p - 1, dummy) == DrainedFrom(qs, p - 1, dummy);
    } else {
      ScheduleAt(qs, p, [], dummy);
      var rest := Pop(qs, p);
      ScheduleDrains(rest, p, dummy);
      DrainedPop(qs, p, p - 1, dummy);
      var s, d, below := qs[p][|qs[p]| - 1], Drained(rest[p], dummy), DrainedFrom(qs, p - 1, dummy);
      if s.w != dummy {
        assert [s] + (d + below) == ([s] + d) + below;
      }
    }
  }

  lemma {:induction false} DrainedReversed(q: Queue, ws: seq<Watcher>, events: Mask, dummy: Watcher)
    requires dummy !in ws
    ensures Drained(q + Reversed(Slots(ws, events)), dummy) == Slots(ws, events) + Drained(q, dummy)
  {
    if ws == [] {
      assert q + [] == q && [] + Drained(q, dummy) == Drained(q, dummy);
    } else {
      var rest, s := Slots(ws[1..], events), Slot(ws[0], events);
      var r := q + Reversed(rest);
      assert Slots(ws, events)[1..] == rest;
      assert q + Reversed(Slots(ws, events)) == r + [s];
      assert (r + [s])[..|r|] == r;
      DrainedReversed(q, ws[1..], events, dummy);
      assert [s] + (rest + Drained(q, dummy)) == ([s] + rest) + Drained(q, dummy);
    }
  }

  lemma {:induction false} OfPriorityIn(ws: seq<Watcher>, p: nat, w: Watcher)
    ensures w in OfPriority(ws, p) ==> w in ws
  {
    if ws != [] {
      OfPriorityIn(ws[1..], p, w);
    }
  }

  /** From priority p down: first the fed watchers in their order, then what was queued before. */
  function FedFirst(qs: Queues, ws: seq<Watcher>, events: Mask, p: int, dummy: Watcher): seq<Slot>
    requires p < NUMPRI
    decreases p + 1
  {
    if p < 0 then []
    else Slots(OfPriority(ws, p), events) + Drained(qs[p], dummy) + FedFirst(qs, ws, events, p - 1, dummy)
  }

  lemma {:induction false} FedDrains(qs: Queues, ws: seq<Watcher>, events: Mask, p: int, dummy: Watcher)
    requires NonePending(qs, ws) && Unique(ws) && dummy !in ws && p < NUMPRI
    ensures DrainedFrom(FeedReverse(qs, ws, events), p, dummy) == FedFirst(qs, ws, events, p, dummy)
    decreases p + 1
  {
    if p >= 0 {
      FedQueues(qs, ws, events, p);
      OfPriorityIn(ws, p, dummy);
      DrainedReversed(qs[p], OfPriority(ws, p), events, dummy);
      FedDrains(qs, ws, events, p - 1, dummy);
    }
  }

  /**
   Reverse feeding composes with the last-in-first-out pop: watchers fed in reverse are invoked
   priority by priority, within a priority in the order in which they were collected and before
   anything that was queued earlier.
   */
  lemma ReverseFeedingKeepsOrder(qs: Queues, ws: seq<Watcher>, events: Mask, dummy: Watcher)
    requires NonePending(qs, ws) && Unique(ws) && dummy !in ws
    ensures Schedule(FeedReverse(qs, ws, events), [], dummy) == FedFirst(qs, ws, events, NUMPRI - 1, dummy)
  {
    ScheduleDrains(FeedReverse(qs, ws, events), NUMPRI - 1, dummy);
    FedDrains(qs, ws, events, NUMPRI - 1, dummy);
  }

  /** `clear_pending` for the watchers without a repeat, one after the other. */
  ghost function ClearOneShots(qs: Queues, ws: seq<Watcher>, dummy: Watcher): Queues
    requires forall w | w in ws :: w.priority < NUMPRI
    reads ws`repeat
  {
    if ws == [] then qs
    else
      var n := |ws| - 1;
      assert ws[n] in ws;
      var rest := ClearOneShots(qs, ws[..n], dummy);
      if ws[n].repeat == 0.0 then Clear(rest, ws[n], dummy) else rest
  }

  lemma ClearOneMore(qs: Queues, ws: seq<Watcher>, w: Watcher, dummy: Watcher)
    requires w.priority < NUMPRI && forall w | w in ws :: w.priority < NUMPRI
    ensures var rest := ClearOneShots(qs, ws, dummy);
      ClearOneShots(qs, ws + [w], dummy) == if w.repeat == 0.0 then Clear(rest, w, dummy) else rest
  {
    assert (ws + [w])[..|ws|] == ws;
  }

  /** Clearing watchers that are not queued changes nothing. */
  lemma {:induction false} ClearNone(qs: Queues, ws: seq<Watcher>, dummy: Watcher)
    requires NonePending(qs, ws)
    ensures ClearOneShots(qs, ws, dummy) == qs
  {
    if ws != [] {
      ClearNone(qs, ws[..|ws| - 1], dummy);
      assert ws[|ws| - 1] in ws;
    }
  }
}
