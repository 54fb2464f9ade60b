/** The pending queues of a loop as libev keeps them: indexed slots, and in every watcher its slot number. */
module Pendings {
  import opened PendingQueues

  class PendingSet {
    /** `pending_w`, which takes the slots of watchers that are no longer pending. */
    const dummy: Watcher
    var queues: Queues
    var pendingpri: nat
    ghost var known: set<Watcher>

    /** A watcher's slot number and the slot point at each other; no real watcher is queued twice. */
    ghost predicate Valid()
      reads this, known`pending
    {
      && WellFormed(queues, dummy, known)
      && forall w :: w in known ==> w.priority < NUMPRI && w.pending == Find(queues[w.priority], w)
    }

    constructor ()
      ensures Valid() && known == {} && AllEmpty(queues) && fresh(dummy)
    {
      dummy := new Watcher(0, 0.0, 0.0, 0, {});
      queues, pendingpri, known := [[], [], [], [], []], 0, {};
    }

    /** A watcher is used with this loop for the first time. */
    ghost method Register(w: Watcher)
      requires Valid() && w !in known && w != dummy && w.priority < NUMPRI && w.pending == 0
      modifies this`known
      ensures Valid() && known == old(known) + {w}
    {
      FindNone(queues[w.priority], w);
      known := known + {w};
    }

    /** `ev_feed_event`. */
    method Feed(w: Watcher, events: Mask)
      requires Valid() && w in known
      modifies this`queues, this`pendingpri, w`pending
      ensures Valid() && queues == PendingQueues.Feed(old(queues), w, events) && pendingpri == NUMPRI - 1
    {
      hide Find, Single, Homed;
      ghost var was := queues;
      var p := w.priority;
      var q := queues[p];
      if w.pending > 0 {
        queues := queues[p := q[w.pending - 1 := Slot(w, q[w.pending - 1].events + events)]];
      } else {
        w.pending := |q| + 1;
        queues := queues[p := q + [Slot(w, events)]];
      }
      pendingpri := NUMPRI - 1;
      FeedKeeps(was, w, events, dummy, known);
      forall x | x in known ensures x.pending == Find(queues[x.priority], x) {
        FeedAdds(was, w, events, dummy, x);
      }
    }

    /** `clear_pending` and `ev_clear_pending`: the events that were waiting. */
    method ClearPending(w: Watcher) returns (events: Mask)
      requires Valid() && w in known
      modifies this`queues, w`pending
      ensures Valid() && queues == Clear(old(queues), w, dummy) && w.pending == 0
      ensures events == Pending(old(queues)[w.priority], w)
    {
      ghost var was := queues;
      events := {};
      if w.pending > 0 {
        var p := w.priority;
        var q := queues[p];
        events := q[w.pending - 1].events;
        queues := queues[p := q[w.pending - 1 := Slot(dummy, q[w.pending - 1].events)]];
        w.pending := 0;
      }
      ClearKeeps(was, w, dummy, known);
      forall x | x in known ensures x.pending == Find(queues[x.priority], x) {
        ClearRemoves(was, w, dummy, x);
      }
    }

    lemma Known(w: Watcher)
      requires Valid() && w in known
      ensures w.priority < NUMPRI && w != dummy && w.pending == Find(queues[w.priority], w)
    {
    }

    lemma RefedBy(w: Watcher, events: Mask, x: Watcher)
      requires Valid() && w in known && x in known
      ensures w.priority < NUMPRI && x.priority < NUMPRI
      ensures var r := PendingQueues.Feed(Clear(queues, w, dummy), w, events);
        Pending(r[x.priority], x) == if x == w then events else Pending(queues[x.priority], x)
    {
      Refed(queues, w, events, dummy, known, x);
    }

    lemma ClearIdempotent(w: Watcher)
      requires Valid() && w in known
      ensures var c := Clear(queues, w, dummy); Clear(c, w, dummy) == c
    {
      ClearRemoves(queues, w, dummy, w);
    }

    /** `feed_reverse_done`. */
    method FeedReverseDone(ws: seq<Watcher>, events: Mask)
      requires Valid() && forall w | w in ws :: w in known && w.priority < NUMPRI
      modifies this`queues, this`pendingpri, known`pending
      ensures Valid() && queues == FeedReverse(old(queues), ws, events)
    {
      hide WellFormed, Find, PendingQueues.Feed;
      var i := |ws|;
      while i > 0
        invariant 0 <= i <= |ws| && Valid() && queues == FeedReverse(old(queues), ws[i..], events)
      {
        i := i - 1;
        assert ws[i..][1..] == ws[i + 1..] && ws[i] in ws;
        Feed(ws[i], events);
      }
      assert ws[0..] == ws;
    }

    /** A callback's feeds and clears. */
    method Callback(ops: seq<Op>)
      requires Valid() && forall op | op in ops :: op.w in known && Legal(op, dummy)
      modifies this`queues, this`pendingpri, known`pending
      ensures Valid() && queues == Perform(old(queues), ops, dummy)
      ensures old(EmptyAbove(queues, pendingpri)) ==> EmptyAbove(queues, pendingpri)
      ensures pendingpri == old(pendingpri) || pendingpri == NUMPRI - 1
      decreases |ops|
    {
      hide WellFormed, Find;
      if ops != [] {
        assert ops[0] in ops;
        match ops[0] {
          case FeedOp(w, events) => Feed(w, events);
          case ClearOp(w) => var _ := ClearPending(w);
        }
        assert forall op | op in ops[1..] :: op in ops;
        Callback(ops[1..]);
      }
    }

    /** The body of the inner loop of `ev_invoke_pending`. */
    method InvokeNewest(script: seq<seq<Op>>) returns (ran: seq<Slot>, rest: seq<seq<Op>>)
      requires Valid() && pendingpri < NUMPRI && queues[pendingpri] != [] && EmptyAbove(queues, pendingpri)
      requires LegalScript(script, dummy) && forall ops, op | ops in script && op in ops :: op.w in known
      modifies this`queues, this`pendingpri, known`pending, dummy`pending
      ensures Valid() && pendingpri < NUMPRI && EmptyAbove(queues, pendingpri)
      ensures LegalScript(rest, dummy) && (forall ops | ops in rest :: ops in script)
      ensures ran + Schedule(queues, rest, dummy) == Schedule(old(queues), script, dummy)
      ensures |rest| < |script| || (|rest| == |script| && Count(queues) < old(Count(queues)))
    {
      hide WellFormed, Find, Schedule, Perform, Legal, Count;
      ScheduleAt(queues, pendingpri, script, dummy);
      ran, rest := [], script;
      var s := TakeNewest();
      if s.w != dummy {
        ran := [s];
        if script != [] {
          assert script[0] in script;
          Callback(script[0]);
          rest := script[1..];
        }
      } else {
        assert [] + Schedule(queues, rest, dummy) == Schedule(queues, rest, dummy);
      }
    }

    /**
     `ev_invoke_pending`, with the i-th callback performing `script[i]`: although it walks down from
     a cursor that feeding moves back up, the events run exactly as the reference scheduler runs
     them, always the newest of the highest nonempty priority, until nothing is queued.
     */
    method InvokePending(script: seq<seq<Op>>) returns (log: seq<Slot>)
      requires Valid() && LegalScript(script, dummy)
      requires forall ops, op | ops in script && op in ops :: op.w in known
      modifies this`queues, this`pendingpri, known`pending, dummy`pending
      ensures Valid() && AllEmpty(queues)
      ensures log == Schedule(old(queues), script, dummy)
    {
      hide WellFormed, Find, Schedule, Perform, Legal, Count;
      log := [];
      var rest := script;
      pendingpri := NUMPRI;
      while pendingpri > 0
        invariant Valid() && pendingpri <= NUMPRI && EmptyAbove(queues, pendingpri - 1)
        invariant (forall ops | ops in rest :: ops in script) && LegalScript(rest, dummy)
        invariant log + Schedule(queues, rest, dummy) == Schedule(old(queues), script, dummy)
        decreases |rest|, Count(queues), pendingpri
      {
        ghost var left, count, cursor := |rest|, Count(queues), pendingpri;
        pendingpri := pendingpri - 1;
        while |queues[pendingpri]| > 0
          invariant Valid() && pendingpri < NUMPRI && EmptyAbove(queues, pendingpri)
          invariant (forall ops | ops in rest :: ops in script) && LegalScript(rest, dummy)
          invariant log + Schedule(queues, rest, dummy) == Schedule(old(queues), script, dummy)
          invariant |rest| < left || (|rest| == left && Count(queues) < count) ||
                    (|rest| == left && Count(queues) == count && pendingpri < cursor)
          decreases |rest|, Count(queues)
        {
          ghost var was := log;
          var ran;
          ran, rest := InvokeNewest(rest);
          log := log + ran;
          assert log + Schedule(queues, rest, dummy) == was + (ran + Schedule(queues, rest, dummy));
        }
      }
      NothingScheduled(queues, rest, dummy);
      assert log + [] == log;
    }

    /** Taking the newest slot at the cursor. */
    method TakeNewest() returns (s: Slot)
      requires Valid() && pendingpri < NUMPRI && queues[pendingpri] != []
      modifies this`queues, known`pending, dummy`pending
      ensures Valid() && s == old(queues[pendingpri][|queues[pendingpri]| - 1]) && queues == Pop(old(queues), pendingpri)
    {
      ghost var was, p := queues, pendingpri;
      var q := queues[pendingpri];
      s := q[|q| - 1];
      assert s in q;
      queues := Pop(queues, pendingpri);
      s.w.pending := 0;
      PopKeeps(was, p, dummy, known);
      forall x | x in known ensures x.pending == Find(queues[x.priority], x) {
        PopRemoves(q, dummy, x);
      }
    }
  }
}
