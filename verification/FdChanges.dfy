/**
 libev's lazy descriptor bookkeeping: starting and stopping I/O watchers only notes the descriptor
 in a change list, and `fd_reify` later tells the backend what became of the event masks.
 */
module FdChanges {
  import opened Basics
  import opened PendingQueues
  import opened Pendings

  /** EV__IOFDSET and EV_ANFD_REIFY. */
  datatype Bit = FdSet | Changed

  /** `ANFD` without the epoll fields; the watcher list is a sequence, head first. */
  datatype Anfd = Anfd(head: seq<Watcher>, events: Mask, reify: set<Bit>)

  const NO_ANFD := Anfd([], {}, {})

  /** The events some watcher of the list wants. */
  function Wanted(ws: seq<Watcher>): Mask {
    if ws == [] then {} else ws[0].want + Wanted(ws[1..])
  }

  /** `Wanted` is the union of the watchers' masks. */
  lemma {:induction false} WantedMeans(ws: seq<Watcher>, f: Flag)
    ensures f in Wanted(ws) <==> exists w | w in ws :: f in w.want
  {
    if ws != [] {
      WantedMeans(ws[1..], f);
      assert forall w :: w in ws <==> w == ws[0] || w in ws[1..];
    }
  }

  lemma {:induction false} WantedAppend(ws: seq<Watcher>, w: Watcher)
    ensures Wanted(ws + [w]) == Wanted(ws) + w.want
  {
    if ws == [] {
      assert ws + [w] == [w];
    } else {
      assert (ws + [w])[1..] == ws[1..] + [w];
      WantedAppend(ws[1..], w);
    }
  }

  predicate Synced(a: Anfd) { a.events == Wanted(a.head) }

  /** The flag is set for just the listed descriptors, each listed once, and any out of date but k is among them. */
  ghost predicate ListedBut(a: seq<Anfd>, todo: seq<nat>, k: int) {
    && Unique(todo) && (forall fd :: fd in todo ==> fd < |a|)
    && (forall fd :: 0 <= fd < |a| ==> (a[fd].reify != {} <==> fd in todo))
    && (forall fd :: 0 <= fd < |a| && fd != k ==> Synced(a[fd]) || fd in todo)
  }

  ghost predicate Listed(a: seq<Anfd>, todo: seq<nat>) { ListedBut(a, todo, -1) }

  /** `fd_change`: what it makes of the list. */
  function Noted(todo: seq<nat>, a: seq<Anfd>, fd: nat): seq<nat>
    requires fd < |a|
  {
    if a[fd].reify == {} then todo + [fd] else todo
  }

  function Marked(a: seq<Anfd>, fd: nat, bits: set<Bit>): seq<Anfd>
    requires fd < |a|
  {
    a[fd := a[fd].(reify := a[fd].reify + bits)]
  }

  /** The descriptors with EV__IOFDSET noted: the backend is to be told even if the mask is the same. */
  function Renewing(a: seq<Anfd>): set<nat> {
    set fd | 0 <= fd < |a| && FdSet in a[fd].reify
  }

  lemma ChangeLists(a: seq<Anfd>, todo: seq<nat>, fd: nat, bits: set<Bit>)
    requires fd < |a| && ListedBut(a, todo, fd) && bits != {}
    ensures Listed(Marked(a, fd, bits), Noted(todo, a, fd))
  {
    var b, more := Marked(a, fd, bits), Noted(todo, a, fd);
    assert fd in more by {
      assert a[fd].reify == {} ==> more[|todo|] == fd;
    }
    forall x | 0 <= x < |b| ensures (b[x].reify != {} <==> x in more) && (Synced(b[x]) || x in more) {
      if x != fd {
        assert b[x] == a[x] && (x in more <==> x in todo);
      } else {
        var f :| f in bits;
        assert f in b[x].reify;
      }
    }
  }

  /** One turn of `fd_reify` takes the first descriptor off the list and brings it up to date. */
  lemma TurnLists(a: seq<Anfd>, todo: seq<nat>)
    requires Listed(a, todo) && todo != []
    ensures todo[0] < |a|
    ensures Listed(a[todo[0] := Anfd(a[todo[0]].head, Wanted(a[todo[0]].head), {})], todo[1..])
  {
    var fd := todo[0];
    assert fd in todo;
    forall x | x in todo[1..] ensures x in todo && x != fd {
      var i :| 0 < i < |todo| && todo[i] == x;
    }
  }

  /** How many watchers are active. */
  ghost function Total(a: seq<Anfd>): nat {
    if a == [] then 0 else |a[0].head| + Total(a[1..])
  }

  lemma {:induction false} TotalUpdate(a: seq<Anfd>, fd: nat, b: Anfd)
    requires fd < |a|
    ensures Total(a[fd := b]) == Total(a) - |a[fd].head| + |b.head|
  {
    if fd == 0 {
      assert a[fd := b][1..] == a[1..];
    } else {
      assert a[fd := b][1..] == a[1..][fd - 1 := b];
      TotalUpdate(a[1..], fd - 1, b);
    }
  }

  /** `wlist_del`. */
  function Without(ws: seq<Watcher>, w: Watcher): seq<Watcher> {
    if ws == [] then []
    else if ws[0] == w then ws[1..]
    else [ws[0]] + Without(ws[1..], w)
  }

  lemma {:induction false} WithoutIn(ws: seq<Watcher>, w: Watcher, x: Watcher)
    requires Unique(ws)
    ensures x in Without(ws, w) <==> x in ws && x != w
  {
    if ws != [] {
      WithoutIn(ws[1..], w, x);
      assert ws[0] !in ws[1..];
      assert x in ws <==> x == ws[0] || x in ws[1..];
    }
  }

  lemma {:induction false} WithoutRemoves(ws: seq<Watcher>, w: Watcher)
    requires Unique(ws)
    ensures Unique(Without(ws, w)) && |Without(ws, w)| == if w in ws then |ws| - 1 else |ws|
  {
    if ws != [] {
      WithoutRemoves(ws[1..], w);
      WithoutIn(ws[1..], w, ws[0]);
      assert w in ws <==> w == ws[0] || w in ws[1..];
      assert ws[0] !in ws[1..];
    }
  }

  // ---------------------------------------------------------------- what the backend is told

  /** A call of `backend_modify`. */
  datatype Call = Call(fd: nat, oev: Mask, nev: Mask)

  /** The calls, each naming the mask its descriptor had, lead from the masks `ev` to the masks `to`. */
  ghost predicate Leads(ev: seq<Mask>, calls: seq<Call>, to: seq<Mask>) {
    if calls == [] then to == ev
    else
      var n := |calls| - 1;
      var c := calls[n];
      c.fd < |to| && to[c.fd] == c.nev && Leads(ev, calls[..n], to[c.fd := c.oev])
  }

  function Events(a: seq<Anfd>): (ev: seq<Mask>)
    ensures |ev| == |a| && forall i :: 0 <= i < |a| ==> ev[i] == a[i].events
  {
    seq(|a|, i requires 0 <= i < |a| => a[i].events)
  }

  lemma NoCall(ev: seq<Mask>)
    ensures Leads(ev, [], ev)
  {
  }

  lemma CallAppended(ev: seq<Mask>, calls: seq<Call>, to: seq<Mask>, c: Call)
    requires Leads(ev, calls, to) && c.fd < |to| && to[c.fd] == c.oev
    ensures Leads(ev, calls + [c], to[c.fd := c.nev])
  {
    assert (calls + [c])[..|calls|] == calls && to[c.fd := c.nev][c.fd := c.oev] == to;
  }

  // ---------------------------------------------------------------- the table

  /** The lists hold just the active watchers, each under its own descriptor and once. */
  ghost predicate Rooted(a: seq<Anfd>, mine: set<Watcher>)
    reads mine`active
  {
    && (forall fd, w :: 0 <= fd < |a| && w in a[fd].head ==> w in mine && w.fd == fd && w.active > 0 && w.want <= {Read, Write})
    && (forall fd :: 0 <= fd < |a| ==> Unique(a[fd].head))
    && (forall w :: w in mine && w.active > 0 ==> w.fd < |a| && w in a[w.fd].head)
  }

  /** What `fd_kill` feeds to a watcher it stops. */
  const KILLED: Mask := {Error, Read, Write}

  class FdTable {
    const pend: PendingSet
    var anfds: seq<Anfd>
    var changes: seq<nat>
    ghost var mine: set<Watcher>

    constructor (pend: PendingSet)
      requires pend.Valid()
      ensures Valid(0) && this.pend == pend && anfds == [] && changes == [] && mine == {}
    {
      this.pend, anfds, changes, mine := pend, [], [], {};
    }

    /** In order when the changes before `from` are dealt with. */
    ghost predicate Valid(from: nat)
      reads this, pend, pend.known
    {
      && pend.Valid() && mine <= pend.known
      && Rooted(anfds, mine)
      && from <= |changes| && Listed(anfds, changes[from..])
    }

    /** A registered watcher is used for I/O with this loop for the first time. */
    ghost method Adopt(w: Watcher)
      requires Valid(0) && w in pend.known && w !in mine && w.active == 0
      modifies this`mine
      ensures Valid(0) && mine == old(mine) + {w}
    {
      hide Listed, PendingSet.Valid, Rooted;
      RootedMore(anfds, mine, w);
      mine := mine + {w};
    }

    /** Stopped, with at least an error event waiting. */
    ghost predicate Told(w: Watcher)
      reads w`active, pend`queues
    {
      w.active == 0 && w.priority < NUMPRI && KILLED <= Pending(pend.queues[w.priority], w)
    }

    /** `fd_change`. */
    method Change(fd: nat, bits: set<Bit>, ghost from: nat)
      requires fd < |anfds| && bits != {}
      requires from <= |changes| && ListedBut(anfds, changes[from..], fd)
      modifies this`anfds, this`changes
      ensures anfds == Marked(old(anfds), fd, bits) && changes == Noted(old(changes), old(anfds), fd)
      ensures from <= |changes| && Listed(anfds, changes[from..])
    {
      hide ListedBut, Listed;
      ghost var was, todo := anfds, changes[from..];
      var reify := anfds[fd].reify;
      anfds := anfds[fd := anfds[fd].(reify := anfds[fd].reify + bits)];
      if reify == {} {
        changes := changes + [fd];
      }
      ChangeLists(was, todo, fd, bits);
      assert changes[from..] == Noted(todo, was, fd);
    }

    /** `wlist_add` after `array_needsize`. */
    method Link(w: Watcher)
      modifies this`anfds
      ensures anfds == Linked(old(anfds), w)
    {
      if w.fd >= |anfds| {
        anfds := Grown(anfds, w.fd + 1);
      }
      anfds := anfds[w.fd := anfds[w.fd].(head := [w] + anfds[w.fd].head)];
    }

    /** `ev_io_start`. */
    method Start(w: Watcher)
      requires Valid(0) && w in mine && w.want <= {Read, Write}
      modifies this`anfds, this`changes, w`active, w`fdset
      ensures Valid(0) && w.active > 0
      ensures old(w.active) > 0 ==> anfds == old(anfds) && changes == old(changes)
      ensures old(w.active) == 0 ==> !w.fdset && changes == Noted(old(changes), Linked(old(anfds), w), w.fd)
      ensures old(w.active) == 0 ==> anfds == Marked(Linked(old(anfds), w), w.fd, Bits(old(w.fdset)))
    {
      hide ListedBut, Listed, Rooted, Linked, Bits, PendingSet.Valid;
      if w.active > 0 {
        return;
      }
      LeftOut(anfds, mine, w);
      assert changes[0..] == changes;
      w.active := 1;
      AddKeeps(anfds, changes, mine, w);
      Link(w);
      MarkKeeps(anfds, mine, w.fd, Bits(w.fdset));
      Change(w.fd, Bits(w.fdset), 0);
      w.fdset := false;
    }

    /** `ev_io_stop`. */
    method Stop(w: Watcher, ghost from: nat)
      requires Valid(from) && w in mine
      modifies this`anfds, this`changes, w`active, w`pending, pend`queues
      ensures Valid(from) && w.active == 0 && w.pending == 0 && pend.queues == Clear(old(pend.queues), w, pend.dummy)
      ensures old(w.active) == 0 ==> anfds == old(anfds) && changes == old(changes)
      ensures old(w.active) > 0 ==> w.fd < |old(anfds)| && anfds == Dropped(old(anfds), w)
      ensures old(w.active) > 0 ==> changes == Noted(old(changes), old(anfds), w.fd) && Total(anfds) == old(Total(anfds)) - 1
    {
      hide ListedBut, Listed, Rooted, Unique, Without, Total, Dropped, PendingSet.Valid, Clear;
      var _ := pend.ClearPending(w);
      if w.active == 0 {
        return;
      }
      DropKeeps(anfds, changes[from..], mine, w);
      var fd := w.fd;
      anfds := anfds[fd := anfds[fd].(head := Without(anfds[fd].head, w))];
      w.active := 0;
      DroppedRooted(old(anfds), mine, w);
      Change(fd, {Changed}, from);
    }

    /** One turn of the loop of `fd_kill`: the first watcher is stopped and told. */
    method KillFirst(fd: nat, ghost from: nat)
      requires Valid(from) && fd < |anfds| && anfds[fd].head != []
      modifies this`anfds, this`changes, mine`active, pend.known`pending, pend`queues, pend`pendingpri
      ensures Valid(from) && |anfds| == |old(anfds)| && old(changes) <= changes
      ensures Events(anfds) == old(Events(anfds)) && Total(anfds) == old(Total(anfds)) - 1
      ensures Renewing(anfds) == old(Renewing(anfds))
      ensures anfds[fd].head == old(anfds[fd].head)[1..] && forall i | 0 <= i < |anfds| && i != fd :: anfds[i] == old(anfds)[i]
      ensures forall x | x in mine && old(Told(x)) :: Told(x)
      ensures forall x | x in mine && old(x.active) > 0 :: x.active == old(x.active) || Told(x)
    {
      hide ListedBut, Listed, Rooted, Unique, Without, Total, PendingSet.Valid, Clear, PendingQueues.Feed, Pending;
      var w := anfds[fd].head[0];
      First(anfds, mine, fd);
      forall x | x in mine
        ensures w.priority < NUMPRI && x.priority < NUMPRI
        ensures Pending(PendingQueues.Feed(Clear(pend.queues, w, pend.dummy), w, KILLED)[x.priority], x)
          == if x == w then KILLED else Pending(pend.queues[x.priority], x)
      {
        pend.RefedBy(w, KILLED, x);
      }
      Stop(w, from);
      pend.Feed(w, KILLED);
    }

    /** `fd_kill`. */
    method Kill(fd: nat, ghost from: nat)
      requires Valid(from) && fd < |anfds|
      modifies this`anfds, this`changes, mine`active, pend.known`pending, pend`queues, pend`pendingpri
      ensures Valid(from) && old(changes) <= changes && Events(anfds) == old(Events(anfds))
      ensures Renewing(anfds) == old(Renewing(anfds))
      ensures (anfds == old(anfds) && changes == old(changes)) || Total(anfds) < old(Total(anfds))
      ensures |anfds| == |old(anfds)| && anfds[fd].head == [] && forall i | 0 <= i < |anfds| && i != fd :: anfds[i] == old(anfds)[i]
      ensures forall x | x in mine && old(Told(x)) :: Told(x)
      ensures forall x | x in mine && old(x.active) > 0 :: x.active == old(x.active) || Told(x)
    {
      hide ListedBut, Listed, Rooted, Total, Events, Renewing, PendingSet.Valid, Told;
      while anfds[fd].head != []
        invariant Valid(from) && old(changes) <= changes && Events(anfds) == old(Events(anfds))
        invariant Renewing(anfds) == old(Renewing(anfds))
        invariant (anfds == old(anfds) && changes == old(changes)) || Total(anfds) < old(Total(anfds))
        invariant |anfds| == |old(anfds)| && forall i | 0 <= i < |anfds| && i != fd :: anfds[i] == old(anfds)[i]
        invariant forall x | x in mine && old(Told(x)) :: Told(x)
        invariant forall x | x in mine && old(x.active) > 0 :: x.active == old(x.active) || Told(x)
        decreases |anfds[fd].head|
      {
        KillFirst(fd, from);
      }
    }

    /** The descriptors the backend gives up on during one call. */
    method KillAll(fds: seq<nat>, ghost from: nat)
      requires Valid(from) && forall fd | fd in fds :: fd < |anfds|
      modifies this`anfds, this`changes, mine`active, pend.known`pending, pend`queues, pend`pendingpri
      ensures Valid(from) && old(changes) <= changes && Events(anfds) == old(Events(anfds))
      ensures Renewing(anfds) == old(Renewing(anfds))
      ensures (anfds == old(anfds) && changes == old(changes)) || Total(anfds) < old(Total(anfds))
      ensures |anfds| == |old(anfds)| && forall i | 0 <= i < |anfds| :: anfds[i].head == if i in fds then [] else old(anfds)[i].head
      ensures forall x | x in mine && old(Told(x)) :: Told(x)
      ensures forall x | x in mine && old(x.active) > 0 :: x.active == old(x.active) || Told(x)
    {
      hide ListedBut, Listed, Rooted, Total, Events, Renewing, PendingSet.Valid, Told;
      for n := 0 to |fds|
        invariant Valid(from) && old(changes) <= changes && Events(anfds) == old(Events(anfds))
        invariant Renewing(anfds) == old(Renewing(anfds))
        invariant (anfds == old(anfds) && changes == old(changes)) || Total(anfds) < old(Total(anfds))
        invariant |anfds| == |old(anfds)|
        invariant forall i | 0 <= i < |anfds| :: anfds[i].head == if i in fds[..n] then [] else old(anfds)[i].head
        invariant forall x | x in mine && old(Told(x)) :: Told(x)
        invariant forall x | x in mine && old(x.active) > 0 :: x.active == old(x.active) || Told(x)
      {
        assert fds[n] in fds && fds[..n + 1] == fds[..n] + [fds[n]];
        Kill(fds[n], from);
      }
      assert fds[..|fds|] == fds;
    }

    /** The loop of `fd_reify` over the watchers of a descriptor. */
    method Combine(head: seq<Watcher>) returns (events: Mask)
      ensures events == Wanted(head)
    {
      events := {};
      for k := 0 to |head|
        invariant events == Wanted(head[..k])
      {
        WantedAppend(head[..k], head[k]);
        assert head[..k + 1] == head[..k] + [head[k]];
        events := events + head[k].want;
      }
      assert head[..|head|] == head;
    }

    /** A turn of `fd_reify` up to the call of the backend, if one is due. */
    method Refresh(i: nat) returns (due: bool, call: Call)
      requires Valid(i) && i < |changes|
      modifies this`anfds
      ensures Valid(i + 1) && |anfds| == |old(anfds)| && Total(anfds) == old(Total(anfds))
      ensures forall k | 0 <= k < |anfds| :: anfds[k].head == old(anfds)[k].head
      ensures call.fd < |anfds| && call.nev == Wanted(anfds[call.fd].head) <= {Read, Write} && call.oev == old(Events(anfds))[call.fd]
      ensures Events(anfds) == if due then old(Events(anfds))[call.fd := call.nev] else old(Events(anfds))
      ensures call.fd == changes[i] && (due <==> call.oev != call.nev || call.fd in old(Renewing(anfds)))
      ensures Renewing(anfds) == old(Renewing(anfds)) - {call.fd}
    {
      hide ListedBut, Listed, Rooted, Total, Unique, Wanted, PendingSet.Valid;
      TurnLists(anfds, changes[i..]);
      assert changes[i..][1..] == changes[i + 1..];
      var fd := changes[i];
      var a := anfds[fd];
      var events := Combine(a.head);
      WantedAllowed(anfds, mine, fd);
      anfds := anfds[fd := Anfd(a.head, events, {})];
      TotalUpdate(old(anfds), fd, Anfd(a.head, events, {}));
      SameHeads(old(anfds), anfds, mine);
      due := a.events != events || FdSet in a.reify;
      call := Call(fd, a.events, events);
      assert Events(anfds) == old(Events(anfds))[fd := events];
    }

    /** What a run of `fd_reify` has achieved: the calls lead from the masks of a to the present ones. */
    ghost predicate Reached(a: seq<Anfd>, script: seq<seq<nat>>, calls: seq<Call>)
      reads this`anfds
    {
      && Leads(Events(a), calls, Events(anfds)) && (forall c | c in calls :: c.nev <= {Read, Write})
      && Announces(Renewing(a), Renewing(anfds), calls) && Emptied(a, anfds, script, |calls|)
    }

    /** A turn of `fd_reify`: the call of the backend, if one is due, kills the descriptors the script has for it. */
    method Turn(i: nat, script: seq<seq<nat>>, calls: seq<Call>, ghost a: seq<Anfd>) returns (more: seq<Call>)
      requires Valid(i) && i < |changes| && Reached(a, script, calls)
      requires forall fds, fd | fds in script && fd in fds :: fd < |anfds|
      modifies this`anfds, this`changes, mine`active, pend.known`pending, pend`queues, pend`pendingpri
      ensures Valid(i + 1) && |anfds| == |old(anfds)| && Reached(a, script, more)
      ensures calls <= more && |more| <= |calls| + 1
      ensures Total(anfds) < old(Total(anfds)) || (Total(anfds) == old(Total(anfds)) && changes == old(changes))
      ensures forall x | x in mine && old(Told(x)) :: Told(x)
      ensures forall x | x in mine && old(x.active) > 0 :: x.active == old(x.active) || Told(x)
    {
      hide ListedBut, Listed, Rooted, Total, Unique, Wanted, PendingSet.Valid, Told, Events, Leads, Renewing, Announces, Emptied,
        FdTable.Valid;
      ghost var before, marks, was := Events(anfds), Renewing(anfds), anfds;
      var due, call := Refresh(i);
      Announced(Renewing(a), marks, calls, due, call);
      more := calls;
      if due {
        CallAppended(Events(a), calls, before, call);
        more := calls + [call];
        if |more| <= |script| {
          assert script[|more| - 1] in script;
          KillAll(script[|more| - 1], i + 1);
        }
      }
      EmptiedMore(a, was, anfds, script, |calls|, |more|);
    }

    /**
     `fd_reify`, with the i-th call of the backend killing the descriptors `script[i]`: it ends with
     an empty change list and every mask the union of what the active watchers want, and the calls
     take the backend from the old masks to the new ones.
     */
    method Reify(script: seq<seq<nat>>) returns (calls: seq<Call>)
      requires Valid(0) && forall fds, fd | fds in script && fd in fds :: fd < |anfds|
      modifies this`anfds, this`changes, mine`active, pend.known`pending, pend`queues, pend`pendingpri
      ensures Valid(0) && changes == [] && |anfds| == |old(anfds)|
      ensures forall fd | 0 <= fd < |anfds| :: anfds[fd].events == Wanted(anfds[fd].head) && anfds[fd].reify == {}
      ensures Leads(old(Events(anfds)), calls, Events(anfds)) && forall c | c in calls :: c.nev <= {Read, Write}
      ensures Announces(old(Renewing(anfds)), {}, calls)
      ensures Emptied(old(anfds), anfds, script, |calls|)
      ensures forall x | x in mine && old(x.active) > 0 :: x.active == old(x.active) || Told(x)
    {
      hide ListedBut, Listed, Rooted, Total, Unique, Wanted, PendingSet.Valid, Told, Events, Leads, Renewing, Announces, Emptied;
      var i := 0;
      calls := [];
      NoCall(Events(anfds));
      NoAnnouncement(Renewing(anfds));
      NoneEmptied(anfds, script);
      while i < |changes|
        invariant Valid(i) && |anfds| == |old(anfds)| && Reached(old(anfds), script, calls)
        invariant forall x | x in mine && old(x.active) > 0 :: x.active == old(x.active) || Told(x)
        decreases Total(anfds), |changes| - i
      {
        calls := Turn(i, script, calls, old(anfds));
        i := i + 1;
      }
      NothingListed(anfds, changes[i..]);
      NothingRenewing(anfds);
      changes := [];
    }

    /** `fd_rearm_all`: the backend forgot everything, so every registered descriptor is to be told anew. */
    method RearmAll()
      requires Valid(0)
      modifies this`anfds, this`changes
      ensures Valid(0) && |anfds| == |old(anfds)|
      ensures forall fd | 0 <= fd < |anfds| :: anfds[fd].head == old(anfds)[fd].head && anfds[fd].events == {}
      ensures forall fd | 0 <= fd < |anfds| && old(anfds)[fd].events != {} :: fd in changes && fd in Renewing(anfds)
      ensures forall fd | 0 <= fd < |anfds| && old(anfds)[fd].events == {} :: anfds[fd] == old(anfds)[fd]
    {
      hide ListedBut, Listed, Rooted, Synced, PendingSet.Valid;
      for fd := 0 to |anfds|
        invariant Valid(0) && |anfds| == |old(anfds)| && old(changes) <= changes
        invariant forall k | 0 <= k < |anfds| :: anfds[k].head == old(anfds)[k].head
        invariant forall k | 0 <= k < fd :: anfds[k].events == {}
        invariant forall k | 0 <= k < fd && old(anfds)[k].events != {} :: k in changes && k in Renewing(anfds)
        invariant forall k | 0 <= k < |anfds| && (fd <= k || old(anfds)[k].events == {}) :: anfds[k] == old(anfds)[k]
      {
        if anfds[fd].events != {} {
          ghost var a := anfds;
          Forgotten(anfds, changes[0..], fd);
          anfds := anfds[fd := anfds[fd].(events := {})];
          Change(fd, {FdSet, Changed}, 0);
          SameHeads(a, anfds, mine);
          MarkedListed(anfds, changes[0..], fd);
        }
      }
    }
  }

  /** The first n calls of the backend emptied the descriptors they killed, and no others. */
  ghost predicate Emptied(a: seq<Anfd>, b: seq<Anfd>, script: seq<seq<nat>>, n: nat) {
    && |a| == |b|
    && (forall k, fd | 0 <= k < n && k < |script| && fd in script[k] && fd < |b| :: b[fd].head == [])
    && (forall fd | 0 <= fd < |b| :: b[fd].head == a[fd].head || KilledBy(script, n, fd))
  }

  ghost predicate KilledBy(script: seq<seq<nat>>, n: nat, fd: nat) {
    exists k :: 0 <= k < n && k < |script| && fd in script[k]
  }

  lemma NoneEmptied(a: seq<Anfd>, script: seq<seq<nat>>)
    ensures Emptied(a, a, script, 0)
  {
  }

  /** A turn keeps the watchers of every descriptor but those its call, if there is one, kills. */
  lemma EmptiedMore(a: seq<Anfd>, b: seq<Anfd>, c: seq<Anfd>, script: seq<seq<nat>>, n: nat, m: nat)
    requires Emptied(a, b, script, n) && |c| == |b| && n <= m <= n + 1
    requires forall fd | 0 <= fd < |c| ::
      c[fd].head == if m == n + 1 && n < |script| && fd in script[n] then [] else b[fd].head
    ensures Emptied(a, c, script, m)
  {
    forall fd | 0 <= fd < |c| && c[fd].head != a[fd].head ensures KilledBy(script, m, fd) {
      if m == n + 1 && n < |script| && fd in script[n] {
        assert 0 <= n < m;
      } else {
        assert KilledBy(script, n, fd);
      }
    }
  }

  lemma NothingRenewing(a: seq<Anfd>)
    requires forall fd | 0 <= fd < |a| :: a[fd].reify == {}
    ensures Renewing(a) == {}
  {
  }

  /**
   Of the descriptors to be told about in any case, all but those left had a call, and any other call
   changes a mask.
   */
  ghost predicate Announces(marks: set<nat>, left: set<nat>, calls: seq<Call>) {
    && left <= marks
    && (forall fd :: fd in marks ==> fd in left || exists c :: c in calls && c.fd == fd)
    && (forall c :: c in calls ==> c.oev != c.nev || c.fd in marks)
  }

  lemma NoAnnouncement(marks: set<nat>)
    ensures Announces(marks, marks, [])
  {
  }

  lemma Announced(marks: set<nat>, left: set<nat>, calls: seq<Call>, due: bool, c: Call)
    requires Announces(marks, left, calls) && (due <==> c.oev != c.nev || c.fd in left)
    ensures Announces(marks, left - {c.fd}, if due then calls + [c] else calls)
  {
    var more := if due then calls + [c] else calls;
    forall fd | fd in marks ensures fd in left - {c.fd} || exists x :: x in more && x.fd == fd {
      if fd == c.fd && fd in left {
        assert more[|calls|] == c;
      } else if fd !in left {
        var x :| x in calls && x.fd == fd;
        assert x in more;
      }
    }
  }

  lemma NothingListed(a: seq<Anfd>, todo: seq<nat>)
    requires Listed(a, todo) && todo == []
    ensures Listed(a, []) && forall fd | 0 <= fd < |a| :: a[fd].events == Wanted(a[fd].head) && a[fd].reify == {}
  {
  }

  lemma Forgotten(a: seq<Anfd>, todo: seq<nat>, fd: nat)
    requires Listed(a, todo) && fd < |a|
    ensures ListedBut(a[fd := a[fd].(events := {})], todo, fd)
  {
  }

  lemma MarkedListed(a: seq<Anfd>, todo: seq<nat>, fd: nat)
    requires Listed(a, todo) && fd < |a|
    ensures a[fd].reify != {} ==> fd in todo
  {
  }

  lemma WantedAllowed(a: seq<Anfd>, mine: set<Watcher>, fd: nat)
    requires Rooted(a, mine) && fd < |a|
    ensures Wanted(a[fd].head) <= {Read, Write}
  {
    forall f | f in Wanted(a[fd].head) ensures f in {Read, Write} {
      WantedMeans(a[fd].head, f);
    }
  }

  lemma First(a: seq<Anfd>, mine: set<Watcher>, fd: nat)
    requires fd < |a| && a[fd].head != [] && Rooted(a, mine)
    ensures var w := a[fd].head[0]; w in mine && w.fd == fd && w.active > 0 && Without(a[fd].head, w) == a[fd].head[1..]
  {
    assert a[fd].head[0] in a[fd].head;
  }

  /** The table once w is off its list and its descriptor is marked. */
  function Dropped(a: seq<Anfd>, w: Watcher): seq<Anfd>
    requires w.fd < |a|
  {
    a[w.fd := Anfd(Without(a[w.fd].head, w), a[w.fd].events, a[w.fd].reify + {Changed})]
  }

  lemma DropKeeps(a: seq<Anfd>, todo: seq<nat>, mine: set<Watcher>, w: Watcher)
    requires Rooted(a, mine) && w in mine && w.active > 0 && Listed(a, todo)
    ensures w.fd < |a|
    ensures var b := a[w.fd := a[w.fd].(head := Without(a[w.fd].head, w))];
      && Rooted(b, mine - {w}) && ListedBut(b, todo, w.fd) && Marked(b, w.fd, {Changed}) == Dropped(a, w)
    ensures Total(Dropped(a, w)) == Total(a) - 1
  {
    hide Rooted, ListedBut, Without;
    Present(a, mine, w);
    WithoutRemoves(a[w.fd].head, w);
    TotalUpdate(a, w.fd, Dropped(a, w)[w.fd]);
    WithoutKeepsList(a, todo, w);
    WithoutKeepsRoot(a, mine, w);
  }

  lemma Present(a: seq<Anfd>, mine: set<Watcher>, w: Watcher)
    requires Rooted(a, mine) && w in mine && w.active > 0
    ensures w.fd < |a| && w in a[w.fd].head && Unique(a[w.fd].head)
  {
  }

  lemma WithoutKeepsList(a: seq<Anfd>, todo: seq<nat>, w: Watcher)
    requires w.fd < |a| && Listed(a, todo)
    ensures ListedBut(a[w.fd := a[w.fd].(head := Without(a[w.fd].head, w))], todo, w.fd)
  {
  }

  lemma WithoutKeepsRoot(a: seq<Anfd>, mine: set<Watcher>, w: Watcher)
    requires w.fd < |a| && Rooted(a, mine)
    ensures Rooted(a[w.fd := a[w.fd].(head := Without(a[w.fd].head, w))], mine - {w})
  {
    var head := a[w.fd].head;
    var rest := Without(head, w);
    WithoutRemoves(head, w);
    var b := a[w.fd := a[w.fd].(head := rest)];
    forall fd, x | 0 <= fd < |b| && x in b[fd].head ensures x in mine - {w} && x.fd == fd && x.active > 0 && x.want <= {Read, Write} {
      if fd == w.fd {
        WithoutIn(head, w, x);
      } else {
        assert b[fd] == a[fd];
      }
      assert x in a[fd].head;
    }
    forall x | x in mine - {w} && x.active > 0 ensures x.fd < |b| && x in b[x.fd].head {
      assert x in a[x.fd].head;
      if x.fd == w.fd {
        WithoutIn(head, w, x);
      }
    }
  }

  lemma DroppedRooted(a: seq<Anfd>, mine: set<Watcher>, w: Watcher)
    requires w.fd < |a| && Rooted(a[w.fd := a[w.fd].(head := Without(a[w.fd].head, w))], mine - {w}) && w.active == 0
    ensures Rooted(Dropped(a, w), mine)
  {
    var b := a[w.fd := a[w.fd].(head := Without(a[w.fd].head, w))];
    SameHeads(b, Dropped(a, w), mine - {w});
    forall fd, x | 0 <= fd < |a| && x in Dropped(a, w)[fd].head ensures x in mine {
      assert x in mine - {w};
    }
  }

  lemma RootedMore(a: seq<Anfd>, mine: set<Watcher>, w: Watcher)
    requires Rooted(a, mine) && w.active == 0
    ensures Rooted(a, mine + {w})
  {
  }

  lemma LeftOut(a: seq<Anfd>, mine: set<Watcher>, w: Watcher)
    requires Rooted(a, mine) && w.active == 0
    ensures Rooted(a, mine - {w})
  {
  }

  function Bits(fdset: bool): (b: set<Bit>)
    ensures b != {}
  {
    if fdset then {FdSet, Changed} else {Changed}
  }

  /** The table, grown if need be, with w at the head of its list. */
  function Linked(a: seq<Anfd>, w: Watcher): (b: seq<Anfd>)
    ensures w.fd < |b|
  {
    var g := if w.fd >= |a| then Grown(a, w.fd + 1) else a;
    g[w.fd := g[w.fd].(head := [w] + g[w.fd].head)]
  }

  lemma AddKeeps(a: seq<Anfd>, todo: seq<nat>, mine: set<Watcher>, w: Watcher)
    requires Rooted(a, mine - {w}) && w in mine && w.active > 0 && w.want <= {Read, Write} && Listed(a, todo)
    ensures Rooted(Linked(a, w), mine) && ListedBut(Linked(a, w), todo, w.fd)
  {
    AddRooted(a, mine, w);
    AddListed(a, todo, w);
  }

  lemma AddListed(a: seq<Anfd>, todo: seq<nat>, w: Watcher)
    requires Listed(a, todo)
    ensures ListedBut(Linked(a, w), todo, w.fd)
  {
  }

  lemma AddRooted(a: seq<Anfd>, mine: set<Watcher>, w: Watcher)
    requires Rooted(a, mine - {w}) && w in mine && w.active > 0 && w.want <= {Read, Write}
    ensures Rooted(Linked(a, w), mine)
  {
    var head := Lookup(a, w.fd).head;
    var b := Linked(a, w);
    assert w !in head;
    forall fd, x | 0 <= fd < |b| && x in b[fd].head ensures x in mine && x.fd == fd && x.active > 0 && x.want <= {Read, Write} {
      if !(x == w && fd == w.fd) {
        assert x in a[fd].head;
        assert x in mine - {w};
      }
    }
    forall x | x in mine && x.active > 0 ensures x.fd < |b| && x in b[x.fd].head {
      if x == w {
        assert b[w.fd].head[0] == w;
      } else {
        assert x in a[x.fd].head;
      }
    }
  }

  lemma MarkKeeps(a: seq<Anfd>, mine: set<Watcher>, fd: nat, bits: set<Bit>)
    requires fd < |a| && Rooted(a, mine)
    ensures Rooted(Marked(a, fd, bits), mine)
  {
    SameHeads(a, Marked(a, fd, bits), mine);
  }

  lemma SameHeads(a: seq<Anfd>, b: seq<Anfd>, mine: set<Watcher>)
    requires Rooted(a, mine) && |a| == |b| && forall i :: 0 <= i < |a| ==> a[i].head == b[i].head
    ensures Rooted(b, mine)
  {
  }

  function Lookup(a: seq<Anfd>, fd: nat): Anfd {
    if fd < |a| then a[fd] else NO_ANFD
  }

  /** `array_needsize` with zeroed new entries. */
  function Grown(a: seq<Anfd>, n: nat): (b: seq<Anfd>)
    requires |a| <= n
    ensures |b| == n && forall i: nat :: i < n ==> b[i] == Lookup(a, i)
  {
    a + seq(n - |a|, i => NO_ANFD)
  }
}
