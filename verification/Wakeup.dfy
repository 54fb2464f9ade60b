/**
 The wake-up handshake between the event loop and concurrent senders
 (`ev_async_send` from any thread, `ev_feed_signal` from any signal handler).

 The protocol is a state machine over sequentially consistent interleavings: every shared
 read or write of the C code is one step, so a run is any interleaving of any number of
 senders with the loop.  `wanted` and `skipped` are `pipe_write_wanted` and
 `pipe_write_skipped`; `pending` holds those of `sig_pending` and `async_pending` that are
 set; `marked` holds the per-watcher `sent` bits and the per-signal `pending` bits.
 */
module Wakeup {

  datatype Kind = Signal | Async

  /** An async watcher (index into `asyncs`) or a signal (index into `signals`). */
  datatype Item = Item(kind: Kind, index: nat)

  /** Where a sender stands in `ev_async_send`/`ev_feed_signal` and `evpipe_write`. */
  datatype SenderPc =
    | Idle
    | Mark            // about to set the item's own bit
    | TestFlag        // about to test *flag
    | SetFlag         // about to set *flag
    | SetSkipped      // about to set pipe_write_skipped
    | TestWanted      // about to test pipe_write_wanted
    | ClearSkipped    // about to clear pipe_write_skipped
    | WritePipe       // about to write the pipe

  datatype Sender = Sender(pc: SenderPc, item: Item)

  /** Where the loop stands in `ev_run` and `pipecb`. */
  datatype LoopPc =
    | Running                          // callbacks, before pipe_write_wanted is set
    | TestSkips                        // wanted is set, about to test pipe_write_skipped
    | Polling(blocking: bool)          // inside backend_poll
    | ClearWanted                      // poll returned
    | TestSkipsAgain                   // about to test pipe_write_skipped after the poll
    | Dispatch                         // about to invoke pending watchers
    | ReadPipe                         // pipecb: about to read the pipe
    | ResetSkipped                     // pipecb: about to clear pipe_write_skipped
    | TestPending(kind: Kind)          // pipecb: about to test sig_pending or async_pending
    | ClearPending(k: Kind)            // pipecb: about to clear it
    | ScanTest(scan: Kind, left: nat)  // pipecb: items 0..left-1 are still to be tested
    | ScanClear(hit: Item)             // pipecb: hit was found set
    | ScanFeed(fed: Item)              // pipecb: the bit of fed was cleared, about to feed it

  /** `capacity` bounds the unread wake-up bytes; with `eventfd` one read drains all of them. */
  datatype Config = Config(signals: nat, asyncs: nat, senders: nat, capacity: nat, eventfd: bool, mayFork: bool)
  {
    predicate Valid() { capacity >= 1 }

    function Count(k: Kind): nat { if k.Signal? then signals else asyncs }

    predicate Has(it: Item) { it.index < Count(it.kind) }
  }

  /** `owed` is history: the items marked since they were last fed. */
  datatype State = State(
    wanted: bool, skipped: bool, pipe: nat,
    pending: set<Kind>, marked: set<Item>,
    queuedRead: bool, queuedCustom: bool,
    loop: LoopPc, senders: seq<Sender>, owed: set<Item>)

  datatype Action =
    | Call(i: nat, target: Item)   // an idle sender enters ev_async_send or ev_feed_signal
    | Advance(i: nat)              // a sender takes its next step
    | Turn(flip: bool)             // the loop takes its next step; flip resolves the choices
    | Fork                         // loop_fork recreates the pipe

  predicate Init(c: Config, s: State) {
    && !s.wanted && !s.skipped && s.pipe == 0 && s.pending == {} && s.marked == {} && s.owed == {}
    && !s.queuedRead && !s.queuedCustom && s.loop == Running
    && |s.senders| == c.senders
    && forall i | 0 <= i < |s.senders| :: s.senders[i].pc == Idle
  }

  predicate Enabled(c: Config, s: State, a: Action) {
    match a
    case Call(i, target) => i < |s.senders| && s.senders[i].pc == Idle && c.Has(target)
    case Advance(i) => i < |s.senders| && s.senders[i].pc != Idle
    case Turn(flip) => true
    case Fork => c.mayFork && s.loop == Running
  }

  function Goto(s: State, i: nat, pc: SenderPc): State
    requires i < |s.senders|
  {
    s.(senders := s.senders[i := s.senders[i].(pc := pc)])
  }

  function SenderStep(c: Config, s: State, i: nat): State
    requires i < |s.senders| && s.senders[i].pc != Idle
  {
    var it := s.senders[i].item;
    match s.senders[i].pc
    case Mark => Goto(s, i, TestFlag).(marked := s.marked + {it}, owed := s.owed + {it})
    case TestFlag => Goto(s, i, if it.kind in s.pending then Idle else SetFlag)
    case SetFlag => Goto(s, i, SetSkipped).(pending := s.pending + {it.kind})
    case SetSkipped => Goto(s, i, TestWanted).(skipped := true)
    case TestWanted => Goto(s, i, if s.wanted then ClearSkipped else Idle)
    case ClearSkipped => Goto(s, i, WritePipe).(skipped := false)
    case WritePipe => Goto(s, i, Idle).(pipe := if s.pipe < c.capacity then s.pipe + 1 else s.pipe)
  }

  /** `char dummy[4]` bounds one read of a plain pipe; reading an eventfd resets it. */
  function Drain(c: Config, pipe: nat): nat {
    if c.eventfd || pipe <= 4 then 0 else pipe - 4
  }

  function AfterScan(k: Kind): LoopPc {
    if k.Signal? then TestPending(Async) else Running
  }

  function LoopStep(c: Config, s: State, flip: bool): State {
    match s.loop
    case Running => if flip then s.(wanted := true, loop := TestSkips) else s
    case TestSkips => s.(loop := Polling(!s.skipped && flip))
    case Polling(_) => s.(queuedRead := (flip && s.pipe > 0) || s.queuedRead, loop := ClearWanted)
    case ClearWanted => s.(wanted := false, loop := TestSkipsAgain)
    case TestSkipsAgain => s.(queuedCustom := s.skipped || s.queuedCustom, loop := Dispatch)
    case Dispatch =>
      s.(queuedRead := false, queuedCustom := false,
         loop := if s.queuedRead then ReadPipe else if s.queuedCustom then ResetSkipped else Running)
    case ReadPipe => s.(pipe := Drain(c, s.pipe), loop := ResetSkipped)
    case ResetSkipped => s.(skipped := false, loop := TestPending(Signal))
    case TestPending(k) => s.(loop := if k in s.pending then ClearPending(k) else AfterScan(k))
    case ClearPending(k) => s.(pending := s.pending - {k}, loop := ScanTest(k, c.Count(k)))
    case ScanTest(k, left) =>
      if left == 0 then s.(loop := AfterScan(k))
      else if Item(k, left - 1) in s.marked then s.(loop := ScanClear(Item(k, left - 1)))
      else s.(loop := ScanTest(k, left - 1))
    case ScanClear(it) => s.(marked := s.marked - {it}, loop := ScanFeed(it))
    case ScanFeed(it) => s.(owed := s.owed - {it}, loop := ScanTest(it.kind, it.index))
  }

  function Step(c: Config, s: State, a: Action): State
    requires Enabled(c, s, a)
  {
    match a
    case Call(i, target) => s.(senders := s.senders[i := Sender(Mark, target)])
    case Advance(i) => SenderStep(c, s, i)
    case Turn(flip) => LoopStep(c, s, flip)
    case Fork => s.(pipe := 0, queuedRead := false, queuedCustom := true)
  }

  /** A run: the states visited, and the actions between them. */
  datatype Run = Run(states: seq<State>, actions: seq<Action>)

  ghost predicate IsPath(c: Config, r: Run) {
    && |r.states| == |r.actions| + 1
    && forall i :: 0 <= i < |r.actions| ==>
         Enabled(c, r.states[i], r.actions[i]) && r.states[i + 1] == Step(c, r.states[i], r.actions[i])
  }

  ghost predicate IsRun(c: Config, r: Run) { IsPath(c, r) && Init(c, r.states[0]) }

  ghost predicate Reachable(c: Config, s: State) {
    exists r :: IsRun(c, r) && s == r.states[|r.actions|]
  }

  // ---------------------------------------------------------------- the invariant

  /** Stretches of `evpipe_write` that the invariant speaks of. */
  datatype Stretch = Raising | Answering | Entering

  predicate Within(pc: SenderPc, z: Stretch) {
    match z
    case Raising => pc.SetSkipped? || pc.ClearSkipped? || pc.WritePipe?
    case Answering => pc.TestWanted? || pc.ClearSkipped? || pc.WritePipe?
    case Entering => pc.TestFlag? || pc.SetFlag?
  }

  predicate At(ss: seq<Sender>, i: int, z: Stretch) {
    0 <= i < |ss| && Within(ss[i].pc, z)
  }

  ghost predicate Some(ss: seq<Sender>, z: Stretch) {
    exists i :: At(ss, i, z)
  }

  /** The current pass of pipecb has yet to test the flag of kind k. */
  predicate WillTest(s: State, k: Kind) {
    match s.loop
    case ReadPipe => true
    case ResetSkipped => true
    case TestPending(j) => j == k || j == Signal
    case ClearPending(j) => j == k || j == Signal
    case ScanTest(j, _) => j == Signal && k == Async
    case ScanClear(it) => it.kind == Signal && k == Async
    case ScanFeed(it) => it.kind == Signal && k == Async
    case _ => false
  }

  predicate InPoll(s: State) { s.loop.TestSkips? || s.loop.Polling? || s.loop.ClearWanted? }

  predicate Blocked(s: State) { s.loop == Polling(true) }

  /** A raised flag has something that makes the loop look at it. */
  ghost predicate FlagCovered(s: State, k: Kind) {
    || WillTest(s, k)
    || s.pipe > 0 || s.skipped || s.queuedRead || s.queuedCustom
    || Some(s.senders, Raising)
  }

  /** The scan in progress has yet to reach the item. */
  predicate WillScan(s: State, it: Item) {
    match s.loop
    case ClearPending(k) => k == it.kind
    case ScanTest(k, left) => k == it.kind && it.index < left
    case ScanClear(h) => h.kind == it.kind && it.index <= h.index
    case ScanFeed(h) => h.kind == it.kind && it.index < h.index
    case _ => false
  }

  ghost predicate Announcing(ss: seq<Sender>, it: Item) {
    exists i :: At(ss, i, Entering) && ss[i].item == it
  }

  ghost predicate ItemCovered(s: State, it: Item) {
    it.kind in s.pending || WillScan(s, it) || Announcing(s.senders, it)
  }

  predicate QueuedOnlyAfterPoll(s: State) {
    s.queuedRead || s.queuedCustom ==> s.loop.ClearWanted? || s.loop.TestSkipsAgain? || s.loop.Dispatch?
  }

  ghost predicate OwedIsMarked(s: State) {
    forall it :: it in s.owed ==> it in s.marked || s.loop == ScanFeed(it)
  }

  ghost predicate Inv(c: Config, s: State) {
    && s.wanted == InPoll(s)
    && (!c.mayFork ==> QueuedOnlyAfterPoll(s))
    && (forall k :: k in s.pending ==> FlagCovered(s, k))
    && (Blocked(s) && s.skipped ==> s.pipe > 0 || Some(s.senders, Answering))
    && (forall it :: it in s.marked ==> c.Has(it) && ItemCovered(s, it))
    && OwedIsMarked(s)
    && (forall i :: 0 <= i < |s.senders| && s.senders[i].pc != Idle ==> c.Has(s.senders[i].item))
  }

  // ---------------------------------------------------------------- every step keeps it

  lemma InitHolds(c: Config, s: State)
    requires Init(c, s)
    ensures Inv(c, s)
  {
  }

  /** Moving one sender keeps every other sender where it was. */
  lemma OthersStay(ss: seq<Sender>, i: nat, x: Sender, z: Stretch)
    requires i < |ss| && Some(ss, z) && (Within(ss[i].pc, z) ==> Within(x.pc, z))
    ensures Some(ss[i := x], z)
  {
    var j :| At(ss, j, z);
    assert At(ss[i := x], j, z);
  }

  lemma RaisingStays(ss: seq<Sender>, i: nat, x: Sender)
    requires i < |ss|
    ensures Within(x.pc, Raising) || (Some(ss, Raising) && !Within(ss[i].pc, Raising)) ==> Some(ss[i := x], Raising)
  {
    if Within(x.pc, Raising) {
      assert At(ss[i := x], i, Raising);
    } else if Some(ss, Raising) && !Within(ss[i].pc, Raising) {
      OthersStay(ss, i, x, Raising);
    }
  }

  /** A step of a sender moves that sender alone, takes no flag back and leaves the loop where it is. */
  lemma SenderMoves(c: Config, s: State, i: nat)
    requires i < |s.senders| && s.senders[i].pc != Idle
    ensures var t := SenderStep(c, s, i);
      && |t.senders| == |s.senders| && t.senders == s.senders[i := t.senders[i]] && t.senders[i].item == s.senders[i].item
      && t.loop == s.loop && s.pending <= t.pending
  {
  }

  lemma SenderLeaves(c: Config, s: State, i: nat)
    requires i < |s.senders| && s.senders[i].pc != Idle
    ensures var t, it := SenderStep(c, s, i), s.senders[i].item;
      && t.wanted == s.wanted && t.queuedRead == s.queuedRead && t.queuedCustom == s.queuedCustom
      && if s.senders[i].pc == Mark then t.marked == s.marked + {it} && t.owed == s.owed + {it}
         else t.marked == s.marked && t.owed == s.owed
  {
  }

  /** It leaves a flag something that makes the loop look at it, or changes nothing about that. */
  lemma SenderCovers(c: Config, s: State, i: nat)
    requires c.Valid() && i < |s.senders| && s.senders[i].pc != Idle
    ensures var t := SenderStep(c, s, i);
      || At(t.senders, i, Raising) || t.skipped || t.pipe > 0
      || (!At(s.senders, i, Raising) && t.skipped == s.skipped && t.pipe == s.pipe && t.pending == s.pending)
  {
  }

  /** A sender that has marked its item goes on to raise the flag, unless that is raised already. */
  lemma SenderEnters(c: Config, s: State, i: nat)
    requires i < |s.senders| && s.senders[i].pc != Idle
    ensures var t := SenderStep(c, s, i);
      && (At(s.senders, i, Entering) ==> s.senders[i].item.kind in t.pending || At(t.senders, i, Entering))
      && (s.senders[i].pc == Mark ==> At(t.senders, i, Entering))
  {
  }

  lemma SenderKeepsFlag(c: Config, s: State, i: nat, k: Kind)
    requires c.Valid() && i < |s.senders| && s.senders[i].pc != Idle
    requires k in s.pending ==> FlagCovered(s, k)
    requires k in SenderStep(c, s, i).pending
    ensures FlagCovered(SenderStep(c, s, i), k)
  {
    hide SenderStep, Some;
    var t := SenderStep(c, s, i);
    SenderMoves(c, s, i);
    SenderLeaves(c, s, i);
    SenderCovers(c, s, i);
    RaisingStays(s.senders, i, t.senders[i]);
  }

  lemma SenderKeepsAnswer(c: Config, s: State, i: nat)
    requires c.Valid() && i < |s.senders| && s.senders[i].pc != Idle && (Blocked(s) ==> s.wanted)
    requires Blocked(s) && s.skipped ==> s.pipe > 0 || Some(s.senders, Answering)
    ensures var t := SenderStep(c, s, i); Blocked(t) && t.skipped ==> t.pipe > 0 || Some(t.senders, Answering)
  {
    var t := SenderStep(c, s, i);
    if Blocked(t) && t.skipped && t.pipe == 0 && !At(t.senders, i, Answering) {
      OthersStay(s.senders, i, t.senders[i], Answering);
    }
  }

  lemma SenderKeepsRest(c: Config, s: State, i: nat)
    requires i < |s.senders| && s.senders[i].pc != Idle && OwedIsMarked(s)
    ensures var t := SenderStep(c, s, i);
      && OwedIsMarked(t) && t.wanted == s.wanted && t.loop == s.loop
      && t.queuedRead == s.queuedRead && t.queuedCustom == s.queuedCustom
      && |t.senders| == |s.senders| && t.senders[i].item == s.senders[i].item
      && (forall j | 0 <= j < |s.senders| && j != i :: t.senders[j] == s.senders[j])
  {
    hide SenderStep;
    SenderMoves(c, s, i);
    SenderLeaves(c, s, i);
  }

  lemma SenderKeepsInv(c: Config, s: State, i: nat)
    requires c.Valid() && Inv(c, s) && i < |s.senders| && s.senders[i].pc != Idle
    ensures Inv(c, SenderStep(c, s, i))
  {
    hide SenderStep, FlagCovered, ItemCovered;
    var t := SenderStep(c, s, i);
    forall k | k in t.pending ensures FlagCovered(t, k) {
      SenderKeepsFlag(c, s, i, k);
    }
    SenderKeepsAnswer(c, s, i);
    SenderKeepsRest(c, s, i);
    forall it | it in t.marked ensures c.Has(it) && ItemCovered(t, it) {
      SenderKeepsCover(c, s, i, it);
    }
  }

  /** An item stays covered when the loop rests, no flag falls and only sender i moves. */
  lemma CoverStays(s: State, t: State, i: nat, it: Item)
    requires i < |s.senders| == |t.senders| && t.loop == s.loop && s.pending <= t.pending
    requires t.senders == s.senders[i := t.senders[i]]
    requires ItemCovered(s, it)
    requires At(s.senders, i, Entering) && s.senders[i].item == it ==>
               it.kind in t.pending || (At(t.senders, i, Entering) && t.senders[i].item == it)
    ensures ItemCovered(t, it)
  {
    if Announcing(s.senders, it) {
      var j :| At(s.senders, j, Entering) && s.senders[j].item == it;
      assert j != i ==> At(t.senders, j, Entering);
    }
  }

  lemma SenderKeepsCover(c: Config, s: State, i: nat, it: Item)
    requires i < |s.senders| && s.senders[i].pc != Idle && c.Has(s.senders[i].item)
    requires it in s.marked ==> c.Has(it) && ItemCovered(s, it)
    requires it in SenderStep(c, s, i).marked
    ensures c.Has(it) && ItemCovered(SenderStep(c, s, i), it)
  {
    hide SenderStep, Within;
    var t := SenderStep(c, s, i);
    SenderMoves(c, s, i);
    SenderLeaves(c, s, i);
    SenderEnters(c, s, i);
    if s.senders[i].pc == Mark && s.senders[i].item == it {
      assert At(t.senders, i, Entering);
    } else {
      CoverStays(s, t, i, it);
    }
  }

  lemma ScanKeepsCover(c: Config, s: State, flip: bool, it: Item)
    requires s.loop.ScanTest? || s.loop.ScanClear? || s.loop.ScanFeed? || s.loop.ClearPending?
    requires it in s.marked && c.Has(it) && ItemCovered(s, it) && it in LoopStep(c, s, flip).marked
    ensures ItemCovered(LoopStep(c, s, flip), it)
  {
    hide Announcing;
  }

  lemma LoopKeepsCover(c: Config, s: State, flip: bool, it: Item)
    requires it in s.marked && c.Has(it) && ItemCovered(s, it) && it in LoopStep(c, s, flip).marked
    ensures ItemCovered(LoopStep(c, s, flip), it)
  {
    hide Announcing;
    if s.loop.ScanTest? || s.loop.ScanClear? || s.loop.ScanFeed? || s.loop.ClearPending? {
      ScanKeepsCover(c, s, flip, it);
    } else {
      IdleKeepsCover(c, s, flip, it);
    }
  }

  lemma IdleKeepsCover(c: Config, s: State, flip: bool, it: Item)
    requires !(s.loop.ScanTest? || s.loop.ScanClear? || s.loop.ScanFeed? || s.loop.ClearPending?)
    requires ItemCovered(s, it)
    ensures ItemCovered(LoopStep(c, s, flip), it)
  {
    hide Announcing;
  }

  lemma LoopKeepsFlag(c: Config, s: State, flip: bool, k: Kind)
    requires k in s.pending ==> FlagCovered(s, k)
    requires k in LoopStep(c, s, flip).pending
    ensures FlagCovered(LoopStep(c, s, flip), k)
  {
    hide Some;
  }

  lemma LoopKeepsOwed(c: Config, s: State, flip: bool)
    requires OwedIsMarked(s)
    ensures OwedIsMarked(LoopStep(c, s, flip))
  {
    var t := LoopStep(c, s, flip);
    forall it | it in t.owed ensures it in t.marked || t.loop == ScanFeed(it) {
      assert it in s.owed;
      if s.loop.ScanTest? || s.loop.ScanClear? || s.loop.ScanFeed? {
        ScanKeepsOwed(c, s, flip, it);
      } else {
        IdleKeepsOwed(c, s, flip, it);
      }
    }
  }

  lemma ScanKeepsOwed(c: Config, s: State, flip: bool, it: Item)
    requires s.loop.ScanTest? || s.loop.ScanClear? || s.loop.ScanFeed?
    requires it in LoopStep(c, s, flip).owed && (it in s.marked || s.loop == ScanFeed(it))
    ensures var t := LoopStep(c, s, flip); it in t.marked || t.loop == ScanFeed(it)
  {
  }

  lemma IdleKeepsOwed(c: Config, s: State, flip: bool, it: Item)
    requires !(s.loop.ScanTest? || s.loop.ScanClear? || s.loop.ScanFeed?) && it in s.marked
    ensures it in LoopStep(c, s, flip).marked
  {
  }

  lemma LoopKeepsRest(c: Config, s: State, flip: bool)
    requires s.wanted == InPoll(s)
    ensures var t := LoopStep(c, s, flip);
      && t.wanted == InPoll(t)
      && (QueuedOnlyAfterPoll(s) ==> QueuedOnlyAfterPoll(t))
      && (Blocked(t) ==> !t.skipped)
  {
    hide QueuedOnlyAfterPoll;
    if QueuedOnlyAfterPoll(s) {
      LoopKeepsQueues(c, s, flip);
    }
  }

  lemma LoopKeepsQueues(c: Config, s: State, flip: bool)
    requires QueuedOnlyAfterPoll(s)
    ensures QueuedOnlyAfterPoll(LoopStep(c, s, flip))
  {
  }

  lemma LoopKeepsInv(c: Config, s: State, flip: bool)
    requires Inv(c, s)
    ensures Inv(c, LoopStep(c, s, flip))
  {
    var t := LoopStep(c, s, flip);
    assert t.senders == s.senders;
    forall k | k in t.pending ensures FlagCovered(t, k) {
      LoopKeepsFlag(c, s, flip, k);
    }
    forall it | it in t.marked ensures c.Has(it) && ItemCovered(t, it) {
      assert it in s.marked;
      LoopKeepsCover(c, s, flip, it);
    }
    LoopKeepsOwed(c, s, flip);
    LoopKeepsRest(c, s, flip);
  }

  lemma CallKeepsInv(c: Config, s: State, i: nat, target: Item)
    requires Inv(c, s) && Enabled(c, s, Call(i, target))
    ensures Inv(c, Step(c, s, Call(i, target)))
  {
    var t := Step(c, s, Call(i, target));
    assert forall z | Some(s.senders, z) :: Some(t.senders, z) by {
      forall z | Some(s.senders, z) ensures Some(t.senders, z) {
        OthersStay(s.senders, i, Sender(Mark, target), z);
      }
    }
    forall it | it in t.marked ensures ItemCovered(t, it) {
      if Announcing(s.senders, it) {
        var j :| At(s.senders, j, Entering) && s.senders[j].item == it;
        assert At(t.senders, j, Entering);
      }
    }
  }

  lemma StepKeepsInv(c: Config, s: State, a: Action)
    requires c.Valid() && Inv(c, s) && Enabled(c, s, a)
    ensures Inv(c, Step(c, s, a))
  {
    match a
    case Call(i, target) => CallKeepsInv(c, s, i, target);
    case Advance(i) => SenderKeepsInv(c, s, i);
    case Turn(flip) => LoopKeepsInv(c, s, flip);
    case Fork =>
  }

  lemma {:induction false} RunKeepsInv(c: Config, r: Run, n: nat)
    requires c.Valid() && IsRun(c, r) && n <= |r.actions|
    ensures Inv(c, r.states[n])
  {
    if n == 0 {
      InitHolds(c, r.states[0]);
    } else {
      RunKeepsInv(c, r, n - 1);
      StepKeepsInv(c, r.states[n - 1], r.actions[n - 1]);
    }
  }

  lemma ReachableInv(c: Config, s: State)
    requires c.Valid() && Reachable(c, s)
    ensures Inv(c, s)
  {
    var r :| IsRun(c, r) && s == r.states[|r.actions|];
    RunKeepsInv(c, r, |r.actions|);
  }

  lemma Take(c: Config, s: State, a: Action) returns (t: State)
    requires Reachable(c, s) && Enabled(c, s, a)
    ensures t == Step(c, s, a) && Reachable(c, t)
  {
    var r :| IsRun(c, r) && s == r.states[|r.actions|];
    t := Step(c, s, a);
    assert IsRun(c, Run(r.states + [t], r.actions + [a]));
  }

  // ---------------------------------------------------------------- no lost wake-up

  ghost predicate Quiet(s: State) {
    forall i :: 0 <= i < |s.senders| ==> s.senders[i].pc == Idle
  }

  /** Past setting the flag and, while the loop blocks, bound to write the pipe. */
  predicate Committed(s: State, i: int) {
    0 <= i < |s.senders| && s.senders[i].pc in {SetSkipped, TestWanted, ClearSkipped, WritePipe}
  }

  ghost predicate WakeupAssured(s: State) {
    Blocked(s) && s.pending != {} ==> s.pipe > 0 || exists i :: Committed(s, i)
  }

  /** Forks included: a blocked loop with a raised flag is being woken, or pipe_w is already queued. */
  lemma BlockedLoopIsWoken(c: Config, s: State)
    requires c.Valid() && Reachable(c, s) && Blocked(s) && s.pending != {}
    ensures s.pipe > 0 || (exists i :: Committed(s, i)) || s.queuedCustom || s.queuedRead
    ensures c.mayFork || !(s.queuedCustom || s.queuedRead)
  {
    ReachableInv(c, s);
    var k :| k in s.pending;
    assert FlagCovered(s, k);
    if Some(s.senders, Raising) {
      var i :| At(s.senders, i, Raising);
      assert Committed(s, i);
    } else if s.skipped && s.pipe == 0 {
      var i :| At(s.senders, i, Answering);
      assert Committed(s, i);
    }
  }

  /** While the loop stays blocked no step uncommits a sender, and its own steps lead to the write. */
  lemma CommittedSenderWrites(c: Config, s: State, a: Action, i: nat)
    requires c.Valid() && Reachable(c, s) && Blocked(s) && Committed(s, i)
    requires Enabled(c, s, a) && Blocked(Step(c, s, a))
    ensures var t := Step(c, s, a);
      t.pipe > 0 || (Committed(t, i) && (a == Advance(i) ==> StepsToWrite(t, i) < StepsToWrite(s, i)))
  {
    assert s.wanted by { ReachableInv(c, s); }
    hide SenderStep;
    if a == Advance(i) {
      OwnStep(c, s, i);
    } else if a.Advance? {
      SenderMoves(c, s, a.i);
    }
  }

  lemma OwnStep(c: Config, s: State, i: nat)
    requires c.Valid() && s.wanted && Committed(s, i)
    ensures var t := SenderStep(c, s, i);
      t.pipe > 0 || (Committed(t, i) && StepsToWrite(t, i) < StepsToWrite(s, i))
  {
  }

  function StepsToWrite(s: State, i: nat): nat
    requires Committed(s, i)
  {
    match s.senders[i].pc
    case SetSkipped => 4
    case TestWanted => 3
    case ClearSkipped => 2
    case _ => 1
  }

  /** A loop blocked before anything was sent. */
  lemma BlockedAtStart(c: Config) returns (s: State)
    requires c.Valid()
    ensures Reachable(c, s) && s.loop == Polling(true) && s.wanted && s.pipe == 0 && s.pending == {}
    ensures !s.queuedRead && !s.queuedCustom && |s.senders| == c.senders && Quiet(s)
  {
    s := State(false, false, 0, {}, {}, false, false, Running, seq(c.senders, _ => Sender(Idle, Item(Async, 0))), {});
    assert IsRun(c, Run([s], []));
    s := Take(c, s, Turn(true));
    s := Take(c, s, Turn(true));
  }

  /** The loop blocks, and one sender has raised its flag. */
  lemma FlagRaised(c: Config) returns (s: State)
    requires c.Valid() && c.senders >= 1 && c.asyncs >= 1
    ensures Reachable(c, s) && s.loop == Polling(true) && s.wanted && s.pipe == 0 && s.pending == {Async}
    ensures !s.queuedRead && !s.queuedCustom && |s.senders| == c.senders && s.senders[0].pc == SetSkipped
    ensures forall i | 1 <= i < |s.senders| :: s.senders[i].pc == Idle
  {
    hide Reachable;
    s := BlockedAtStart(c);
    s := Take(c, s, Call(0, Item(Async, 0)));
    s := Take(c, s, Advance(0));
    s := Take(c, s, Advance(0));
    s := Take(c, s, Advance(0));
  }

  /** A sender that saw `wanted` still has to write when the poll returns on its own. */
  lemma LateWrite(c: Config) returns (s: State)
    requires c.Valid() && c.senders >= 1 && c.asyncs >= 1
    ensures Reachable(c, s) && s.loop == ClearWanted && s.pipe == 1 && !s.skipped && s.pending == {Async}
    ensures !s.queuedRead && !s.queuedCustom && forall i | 0 <= i < |s.senders| :: s.senders[i].pc == Idle
  {
    hide Reachable;
    s := FlagRaised(c);
    s := Take(c, s, Advance(0));
    s := Take(c, s, Advance(0));
    s := Take(c, s, Turn(false));
    s := Take(c, s, Advance(0));
    s := Take(c, s, Advance(0));
  }

  /** A fork between the write and the next poll drops the byte: the loop blocks on a raised flag. */
  lemma ForkLosesWakeup(c: Config) returns (s: State)
    requires c.Valid() && c.mayFork && c.senders >= 1 && c.asyncs >= 1
    ensures Reachable(c, s) && !WakeupAssured(s)
  {
    s := LateWrite(c);
    s := Take(c, s, Turn(true));
    s := Take(c, s, Turn(true));
    s := Take(c, s, Turn(true));
    assert s.loop == Running;
    s := Take(c, s, Fork);
    s := Take(c, s, Turn(true));
    s := Take(c, s, Turn(true));
  }

  // ---------------------------------------------------------------- which forks are harmless

  /** A fork that drops the pipe leaves every raised flag with something else to make the loop look. */
  ghost predicate Harmless(s: State) {
    s.pending == {} || s.skipped || Some(s.senders, Raising)
  }

  ghost predicate IsCareful(r: Run) {
    |r.actions| <= |r.states| && forall i :: 0 <= i < |r.actions| && r.actions[i].Fork? ==> Harmless(r.states[i])
  }

  /** Reachable by a run whose forks are all harmless. */
  ghost predicate CarefullyReachable(c: Config, s: State) {
    exists r :: IsRun(c, r) && IsCareful(r) && s == r.states[|r.actions|]
  }

  predicate AfterPoll(s: State) { s.loop.ClearWanted? || s.loop.TestSkipsAgain? || s.loop.Dispatch? }

  /** A raised flag is covered, by a queued event only once the poll is over. */
  ghost predicate SteadyCover(s: State, k: Kind) {
    || WillTest(s, k)
    || s.pipe > 0 || s.skipped
    || (AfterPoll(s) && (s.queuedRead || s.queuedCustom))
    || Some(s.senders, Raising)
  }

  ghost predicate Steady(s: State) { forall k :: k in s.pending ==> SteadyCover(s, k) }

  lemma SenderKeepsSteady(c: Config, s: State, i: nat, k: Kind)
    requires c.Valid() && i < |s.senders| && s.senders[i].pc != Idle
    requires k in s.pending ==> SteadyCover(s, k)
    requires k in SenderStep(c, s, i).pending
    ensures SteadyCover(SenderStep(c, s, i), k)
  {
    hide SenderStep, Some;
    var t := SenderStep(c, s, i);
    SenderMoves(c, s, i);
    SenderLeaves(c, s, i);
    SenderCovers(c, s, i);
    RaisingStays(s.senders, i, t.senders[i]);
  }

  lemma LoopKeepsSteady(c: Config, s: State, flip: bool, k: Kind)
    requires k in s.pending ==> SteadyCover(s, k)
    requires k in LoopStep(c, s, flip).pending
    ensures SteadyCover(LoopStep(c, s, flip), k)
  {
    hide Some;
    if s.loop.ScanTest? || s.loop.ScanClear? || s.loop.ScanFeed? || s.loop.TestPending? || s.loop.ClearPending? {
      ScanKeepsSteady(c, s, flip, k);
    } else {
      PollKeepsSteady(c, s, flip, k);
    }
  }

  lemma ScanKeepsSteady(c: Config, s: State, flip: bool, k: Kind)
    requires s.loop.ScanTest? || s.loop.ScanClear? || s.loop.ScanFeed? || s.loop.TestPending? || s.loop.ClearPending?
    requires k in s.pending ==> SteadyCover(s, k)
    requires k in LoopStep(c, s, flip).pending
    ensures SteadyCover(LoopStep(c, s, flip), k)
  {
    hide Some;
  }

  lemma PollKeepsSteady(c: Config, s: State, flip: bool, k: Kind)
    requires !(s.loop.ScanTest? || s.loop.ScanClear? || s.loop.ScanFeed? || s.loop.TestPending? || s.loop.ClearPending?)
    requires k in s.pending ==> SteadyCover(s, k)
    requires k in LoopStep(c, s, flip).pending
    ensures SteadyCover(LoopStep(c, s, flip), k)
  {
    hide Some;
  }

  lemma CarefulStepKeepsSteady(c: Config, s: State, a: Action)
    requires c.Valid() && Enabled(c, s, a) && Steady(s) && (a.Fork? ==> Harmless(s))
    ensures Steady(Step(c, s, a))
  {
    var t := Step(c, s, a);
    forall k | k in t.pending ensures SteadyCover(t, k) {
      match a
      case Call(i, target) =>
        if Some(s.senders, Raising) {
          OthersStay(s.senders, i, Sender(Mark, target), Raising);
        }
      case Advance(i) => SenderKeepsSteady(c, s, i, k);
      case Turn(flip) => LoopKeepsSteady(c, s, flip, k);
      case Fork =>
    }
  }

  lemma {:induction false} CarefulPathKeeps(c: Config, r: Run, n: nat)
    requires c.Valid() && IsPath(c, r) && IsCareful(r) && n <= |r.actions| && Inv(c, r.states[0]) && Steady(r.states[0])
    ensures Inv(c, r.states[n]) && Steady(r.states[n])
  {
    if n > 0 {
      CarefulPathKeeps(c, r, n - 1);
      StepKeepsInv(c, r.states[n - 1], r.actions[n - 1]);
      CarefulStepKeepsSteady(c, r.states[n - 1], r.actions[n - 1]);
    }
  }

  lemma CarefullyReachableSteady(c: Config, s: State)
    requires c.Valid() && CarefullyReachable(c, s)
    ensures Reachable(c, s) && Inv(c, s) && Steady(s)
  {
    var r :| IsRun(c, r) && IsCareful(r) && s == r.states[|r.actions|];
    InitHolds(c, r.states[0]);
    CarefulPathKeeps(c, r, |r.actions|);
  }

  lemma SteadyIsAssured(c: Config, s: State)
    requires Inv(c, s) && Steady(s)
    ensures WakeupAssured(s)
  {
    if Blocked(s) && s.pending != {} {
      var k :| k in s.pending;
      assert SteadyCover(s, k);
      if Some(s.senders, Raising) {
        var i :| At(s.senders, i, Raising);
        assert Committed(s, i);
      } else if s.skipped && s.pipe == 0 {
        var i :| At(s.senders, i, Answering);
        assert Committed(s, i);
      }
    }
  }

  /** As long as only harmless forks happen, no wake-up is lost, whatever the interleaving. */
  lemma NoLostWakeup(c: Config, s: State)
    requires c.Valid() && CarefullyReachable(c, s)
    ensures WakeupAssured(s)
  {
    CarefullyReachableSteady(c, s);
    SteadyIsAssured(c, s);
  }

  /** A way on from a to b whose forks are all harmless. */
  ghost predicate LeadsTo(c: Config, a: State, b: State) {
    exists r :: IsPath(c, r) && IsCareful(r) && a == r.states[0] && b == r.states[|r.actions|]
  }

  lemma NoWay(c: Config, a: State)
    ensures LeadsTo(c, a, a)
  {
    var r := Run([a], []);
    assert IsPath(c, r) && IsCareful(r) && a == r.states[0] && a == r.states[|r.actions|];
  }

  lemma OneStepOn(c: Config, a: State, b: State, act: Action) returns (t: State)
    requires LeadsTo(c, a, b) && Enabled(c, b, act) && !act.Fork?
    ensures t == Step(c, b, act) && LeadsTo(c, a, t)
  {
    hide Step, Enabled, Harmless;
    var r :| IsPath(c, r) && IsCareful(r) && a == r.states[0] && b == r.states[|r.actions|];
    t := Step(c, b, act);
    var q := Run(r.states + [t], r.actions + [act]);
    PathMore(c, r, act);
    assert IsPath(c, q) && IsCareful(q) && a == q.states[0] && t == q.states[|q.actions|];
  }

  lemma PathMore(c: Config, r: Run, act: Action)
    requires IsPath(c, r) && IsCareful(r) && Enabled(c, r.states[|r.actions|], act) && !act.Fork?
    ensures var q := Run(r.states + [Step(c, r.states[|r.actions|], act)], r.actions + [act]); IsPath(c, q) && IsCareful(q)
  {
    hide Step, Enabled, Harmless;
  }

  /** Nothing covers the flags any more but senders that are about to see that no write is wanted. */
  ghost predicate Uncovered(s: State) {
    && s.loop == Running && !s.wanted && !s.skipped && s.pipe == 0 && s.pending != {}
    && !Some(s.senders, Raising)
  }

  /** Those senders go on and leave nothing behind. */
  lemma {:induction false} SendersGoIdle(c: Config, a: State, s: State, n: nat) returns (t: State)
    requires LeadsTo(c, a, s) && Uncovered(s) && n <= |s.senders|
    requires forall i | 0 <= i < n :: s.senders[i].pc != TestWanted
    ensures LeadsTo(c, a, t) && Uncovered(t) && forall i | 0 <= i < |t.senders| :: t.senders[i].pc != TestWanted
    decreases |s.senders| - n
  {
    if n == |s.senders| {
      t := s;
    } else if s.senders[n].pc != TestWanted {
      t := SendersGoIdle(c, a, s, n + 1);
    } else {
      var u := OneStepOn(c, a, s, Advance(n));
      forall i | At(u.senders, i, Raising) ensures At(s.senders, i, Raising) {
      }
      t := SendersGoIdle(c, a, u, n + 1);
    }
  }

  /** From any other fork the loop can go on to block on a raised flag that nobody will wake it for. */
  lemma OtherForksLoseWakeup(c: Config, s: State) returns (t: State)
    requires c.Valid() && Reachable(c, s) && Enabled(c, s, Fork) && !Harmless(s)
    ensures LeadsTo(c, Step(c, s, Fork), t) && !WakeupAssured(t)
  {
    ReachableInv(c, s);
    var f := Step(c, s, Fork);
    NoWay(c, f);
    t := SendersGoIdle(c, f, f, 0);
    var u := OneStepOn(c, f, t, Turn(true));
    var w := OneStepOn(c, f, u, Turn(true));
    forall i ensures !Committed(w, i) {
      assert w.senders == t.senders && !At(t.senders, i, Raising);
    }
    t := w;
  }

  /** Every way on from a fork keeps the promise exactly if the fork was harmless. */
  lemma ForkIsSafeIffHarmless(c: Config, s: State)
    requires c.Valid() && CarefullyReachable(c, s) && Enabled(c, s, Fork)
    ensures Harmless(s) <==> forall t :: LeadsTo(c, Step(c, s, Fork), t) ==> WakeupAssured(t)
  {
    CarefullyReachableSteady(c, s);
    var f := Step(c, s, Fork);
    if Harmless(s) {
      StepKeepsInv(c, s, Fork);
      CarefulStepKeepsSteady(c, s, Fork);
      forall t | LeadsTo(c, f, t) ensures WakeupAssured(t) {
        var r :| IsPath(c, r) && IsCareful(r) && f == r.states[0] && t == r.states[|r.actions|];
        CarefulPathKeeps(c, r, |r.actions|);
        SteadyIsAssured(c, t);
      }
    } else {
      var t := OtherForksLoseWakeup(c, s);
    }
  }

  // ---------------------------------------------------------------- every send is delivered

  /** A finished send is covered by the kind's flag or by the scan in progress until the item is fed. */
  lemma FinishedSendIsCovered(c: Config, s: State, it: Item)
    requires c.Valid() && Reachable(c, s) && it in s.owed
    requires forall i :: At(s.senders, i, Entering) ==> s.senders[i].item != it
    ensures it.kind in s.pending || WillScan(s, it) || s.loop == ScanFeed(it)
  {
    ReachableInv(c, s);
  }

  /** When all senders are done and the loop blocks while something is owed, the pipe is readable. */
  lemma QuietBlockedIsReadable(c: Config, s: State)
    requires c.Valid() && CarefullyReachable(c, s) && Quiet(s) && Blocked(s) && s.owed != {}
    ensures s.pipe > 0
  {
    CarefullyReachableSteady(c, s);
    var it :| it in s.owed;
    FinishedSendIsCovered(c, s, it);
    NoLostWakeup(c, s);
  }

  /** From here on, a wake-up is on its way and the flags already dealt with are down. */
  predicate Serving(s: State) {
    match s.loop
    case Polling(_) => s.pipe > 0
    case ClearWanted => s.queuedRead
    case TestSkipsAgain => s.queuedRead
    case Dispatch => s.queuedRead
    case ReadPipe => true
    case ResetSkipped => true
    case TestPending(k) => k == Async ==> Signal !in s.pending
    case ClearPending(k) => k == Async ==> Signal !in s.pending
    case ScanTest(k, _) => k !in s.pending && Signal !in s.pending
    case ScanClear(it) => it.kind !in s.pending && Signal !in s.pending
    case ScanFeed(it) => it.kind !in s.pending && Signal !in s.pending
    case _ => false
  }

  function TurnsLeft(c: Config, pc: LoopPc): (n: nat)
    ensures pc == Running || pc == TestSkips || n > 0
  {
    var async := 3 * c.asyncs + 3;
    var signal := async + 3 * c.signals + 3;
    match pc
    case Polling(_) => signal + 6
    case ClearWanted => signal + 5
    case TestSkipsAgain => signal + 4
    case Dispatch => signal + 3
    case ReadPipe => signal + 2
    case ResetSkipped => signal + 1
    case TestPending(k) => if k.Signal? then signal else async
    case ClearPending(k) => (if k.Signal? then signal else async) - 1
    case ScanTest(k, left) => (if k.Signal? then async + 1 else 1) + 3 * left
    case ScanClear(it) => (if it.kind.Signal? then async + 1 else 1) + 3 * it.index + 2
    case ScanFeed(it) => (if it.kind.Signal? then async + 1 else 1) + 3 * it.index + 1
    case _ => 0
  }

  ghost predicate ServingGoesOn(c: Config, s: State) {
    var t := LoopStep(c, s, true);
    && (Serving(t) || (t.loop == Running && t.pending == {}))
    && TurnsLeft(c, t.loop) < TurnsLeft(c, s.loop)
  }

  lemma ServingApproach(c: Config, s: State)
    requires Serving(s) && !s.loop.TestPending? && !s.loop.ClearPending?
    requires !s.loop.ScanTest? && !s.loop.ScanClear? && !s.loop.ScanFeed?
    ensures ServingGoesOn(c, s)
  {
  }

  lemma ServingTest(c: Config, s: State)
    requires Serving(s) && (s.loop.TestPending? || s.loop.ClearPending?)
    ensures ServingGoesOn(c, s)
  {
    OnlyTwoKinds(s.pending);
  }

  lemma ServingScan(c: Config, s: State)
    requires Serving(s) && s.loop.ScanTest?
    ensures ServingGoesOn(c, s)
  {
    hide LoopStep;
    ScanTestTurn(c, s);
    OnlyTwoKinds(s.pending);
  }

  /** Testing an item goes on to clear it, to the next item, or past the scan. */
  lemma ScanTestTurn(c: Config, s: State)
    requires s.loop.ScanTest?
    ensures var t, k, left := LoopStep(c, s, true), s.loop.scan, s.loop.left;
      && t.pending == s.pending
      && if left == 0 then t.loop == AfterScan(k)
         else t.loop == ScanClear(Item(k, left - 1)) || t.loop == ScanTest(k, left - 1)
  {
  }

  lemma ServingHit(c: Config, s: State)
    requires Serving(s) && (s.loop.ScanClear? || s.loop.ScanFeed?)
    ensures ServingGoesOn(c, s)
  {
  }

  lemma OnlyTwoKinds(ks: set<Kind>)
    ensures Signal !in ks && Async !in ks ==> ks == {}
  {
    if k :| k in ks {
      match k
      case Signal =>
      case Async =>
    }
  }

  lemma ServingStep(c: Config, s: State)
    requires Serving(s)
    ensures ServingGoesOn(c, s)
  {
    hide LoopStep, TurnsLeft, ServingGoesOn;
    if s.loop.ScanTest? {
      ServingScan(c, s);
    } else if s.loop.ScanClear? || s.loop.ScanFeed? {
      ServingHit(c, s);
    } else if s.loop.TestPending? || s.loop.ClearPending? {
      ServingTest(c, s);
    } else {
      ServingApproach(c, s);
    }
  }

  function Turns(c: Config, s: State, n: nat): State
    decreases n
  {
    if n == 0 then s else Turns(c, LoopStep(c, s, true), n - 1)
  }

  /** Left to itself, a loop that is being woken feeds every item owed and returns to its callbacks. */
  lemma TurnKeepsSenders(c: Config, s: State)
    ensures LoopStep(c, s, true).senders == s.senders
  {
  }

  lemma {:induction false} ServingDeliversAll(c: Config, s: State) returns (n: nat)
    requires c.Valid() && Reachable(c, s) && Quiet(s) && Serving(s)
    ensures Turns(c, s, n).loop == Running && Turns(c, s, n).owed == {}
    decreases TurnsLeft(c, s.loop)
  {
    hide LoopStep, TurnsLeft, Reachable;
    var t := Take(c, s, Turn(true));
    ServingStep(c, s);
    TurnKeepsSenders(c, s);
    if Serving(t) {
      n := ServingDeliversAll(c, t);
      n := n + 1;
    } else {
      n := 1;
      assert Turns(c, s, 1) == Turns(c, t, 0);
      if it :| it in t.owed {
        FinishedSendIsCovered(c, t, it);
        assert false;
      }
    }
  }

  /** End to end: once the senders are done, a blocked loop delivers everything it still owes. */
  lemma BlockedLoopDelivers(c: Config, s: State) returns (n: nat)
    requires c.Valid() && CarefullyReachable(c, s) && Quiet(s) && Blocked(s) && s.owed != {}
    ensures Turns(c, s, n).loop == Running && Turns(c, s, n).owed == {}
  {
    CarefullyReachableSteady(c, s);
    QuietBlockedIsReadable(c, s);
    n := ServingDeliversAll(c, s);
  }
}
