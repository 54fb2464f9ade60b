/**
 The epoll(7) backend: libev never deletes a registration, it remembers the mask and a generation
 it last gave the kernel and repairs what turns out to differ.
 */
module Epoll {
  import opened PendingQueues
  import opened Pendings
  import opened FdChanges

  /** The epoll fields of `ANFD`, with the mask the loop last asked for. */
  datatype EpollFd = EpollFd(events: Mask, emask: Mask, egen: nat)

  const GENERATIONS: nat := 0x1_0000_0000

  /** `++egen` and `--egen` on an unsigned 32-bit counter. */
  function NextGen(g: nat): nat { (g + 1) % 0x1_0000_0000 }

  function PrevGen(g: nat): nat { (g + 0xFFFF_FFFF) % 0x1_0000_0000 }

  /** A new generation tells apart events of the registration before. */
  lemma GenMoves(g: nat)
    requires g < GENERATIONS
    ensures NextGen(g) != g && NextGen(g) < GENERATIONS
  {
  }

  lemma GenRoundTrip(g: nat)
    requires g < GENERATIONS
    ensures PrevGen(NextGen(g)) == g
  {
  }

  /** What the kernel keeps for a registered descriptor: the events and, in the user data, the generation. */
  datatype Registration = Registration(mask: Mask, gen: nat)

  datatype Errno = Success | ENOENT | EEXIST | EBADF | ENOMEM

  datatype Ctl = Add | Mod | Del

  /** What `epoll_wait` reports. */
  datatype Event = Event(fd: nat, gen: nat, got: Mask)

  class EpollBackend {
    var anfds: seq<EpollFd>
    var kernel: map<nat, Registration>
    var open: set<nat>
    var postfork: bool
    /** Closed by the user or given up on since the backend was last told about them. */
    ghost var lost: set<nat>

    constructor ()
      ensures Valid() && anfds == [] && kernel == map[] && open == {} && !postfork && lost == {}
    {
      anfds, kernel, open, postfork, lost := [], map[], {}, false, {};
    }

    /**
     Whatever is registered carries the remembered mask and generation, and whatever is wanted
     and not lost is registered with just the wanted mask.
     */
    ghost predicate Valid()
      reads this
    {
      && (forall fd :: fd in kernel ==> fd < |anfds|)
      && forall fd :: 0 <= fd < |anfds| ==> Kept(anfds[fd], kernel, open, lost, fd)
    }

    /** The direct map: what is wanted and not lost is what is registered. */
    lemma Exact()
      requires Valid()
      ensures forall fd | 0 <= fd < |anfds| && fd !in lost && anfds[fd].events != {} ::
        fd in kernel && kernel[fd] == Registration(anfds[fd].events, anfds[fd].egen)
    {
      forall fd | 0 <= fd < |anfds| && fd !in lost && anfds[fd].events != {}
        ensures fd in kernel && kernel[fd] == Registration(anfds[fd].events, anfds[fd].egen)
      {
        assert Kept(anfds[fd], kernel, open, lost, fd);
      }
    }

    lemma KeptAt(fd: nat)
      requires Valid() && fd < |anfds|
      ensures Kept(anfds[fd], kernel, open, lost, fd)
    {
    }

    lemma ClosedIsUnregistered(fd: nat)
      requires Valid()
      ensures fd !in open ==> fd !in kernel
    {
      assert fd in kernel ==> Kept(anfds[fd], kernel, open, lost, fd);
    }

    /** epoll_ctl(2): adding to a full kernel fails, nothing else does without a reason. */
    method EpollCtl(op: Ctl, fd: nat, reg: Registration, full: bool) returns (errno: Errno)
      modifies this`kernel
      ensures errno == Controlled(old(kernel), open, op, fd, full)
      ensures SameElsewhere(old(kernel), kernel, fd) && (errno != Success ==> kernel == old(kernel))
      ensures errno == Success ==> if op == Del then fd !in kernel else fd in kernel && kernel[fd] == reg
    {
      if fd !in open {
        return EBADF;
      }
      if op == Add && fd in kernel {
        return EEXIST;
      }
      if op != Add && fd !in kernel {
        return ENOENT;
      }
      if op == Add && full {
        return ENOMEM;
      }
      kernel := if op == Del then kernel - {fd} else kernel[fd := reg];
      return Success;
    }

    /**
     `epoll_modify`, with the mask stored by `fd_reify` just before.  Deletions are skipped; any
     other call leaves just the new mask registered, or fails and says so exactly when the
     descriptor is closed or there is no room to register it.
     */
    method Modify(fd: nat, oev: Mask, nev: Mask, full: bool) returns (killed: bool)
      requires Valid() && fd < |anfds| && oev == anfds[fd].events
      modifies this`anfds, this`kernel, this`lost
      ensures Valid() && |anfds| == |old(anfds)| && anfds[fd].events == nev
      ensures forall k | 0 <= k < |anfds| && k != fd :: anfds[k] == old(anfds)[k]
      ensures SameElsewhere(old(kernel), kernel, fd)
      ensures killed <==> nev != {} && (fd !in open || (fd !in old(kernel) && full))
      ensures nev == {} ==> kernel == old(kernel)
      ensures killed ==> fd !in kernel && kernel == old(kernel)
      ensures nev != {} && !killed ==> fd in kernel && kernel[fd] == Registration(nev, anfds[fd].egen)
      ensures lost == if killed then old(lost) + {fd} else if nev == {} then old(lost) else old(lost) - {fd}
      ensures anfds[fd].egen == Generation(old(anfds)[fd], fd in old(kernel), nev, killed)
    {
      hide SameElsewhere;
      killed := false;
      if nev == {} {
        Nothing(kernel, fd);
        anfds := anfds[fd := anfds[fd].(events := nev)];
        return;
      }
      ghost var was, reg0 := kernel, anfds[fd];
      assert Kept(reg0, kernel, open, lost, fd);
      killed := Tell(fd, oev, nev, full);
      OthersKept(old(anfds), anfds, was, kernel, open, old(lost), lost, fd);
    }

    /** The part of `epoll_modify` that talks to the kernel. */
    method Tell(fd: nat, oev: Mask, nev: Mask, full: bool) returns (killed: bool)
      requires fd < |anfds| && oev == anfds[fd].events && nev != {} && Kept(anfds[fd], kernel, open, lost, fd)
      modifies this`anfds, this`kernel, this`lost
      ensures |anfds| == |old(anfds)| && anfds == old(anfds)[fd := anfds[fd]] && anfds[fd].events == nev
      ensures SameElsewhere(old(kernel), kernel, fd) && Kept(anfds[fd], kernel, open, lost, fd)
      ensures killed <==> fd !in open || (fd !in old(kernel) && full)
      ensures killed ==> fd !in kernel && kernel == old(kernel)
      ensures !killed ==> fd in kernel && kernel[fd] == Registration(nev, anfds[fd].egen)
      ensures lost == if killed then old(lost) + {fd} else old(lost) - {fd}
      ensures anfds[fd].egen == Generation(old(anfds)[fd], fd in old(kernel), nev, killed)
    {
      killed := false;
      var oldmask, g := anfds[fd].emask, anfds[fd].egen;
      GenRoundTrip(g);
      anfds := anfds[fd := EpollFd(nev, nev, NextGen(g))];
      var reg := Registration(nev, NextGen(g));
      lost := lost - {fd};
      var errno := EpollCtl(if oev != {} && oldmask != nev then Mod else Add, fd, reg, full);
      if errno == Success {
        return;
      }
      if errno == ENOENT {
        errno := EpollCtl(Add, fd, reg, full);
        if errno == Success {
          return;
        }
      } else if errno == EEXIST {
        if oldmask == nev {
          anfds := anfds[fd := EpollFd(nev, nev, PrevGen(NextGen(g)))];
          return;
        }
        errno := EpollCtl(Mod, fd, reg, full);
        if errno == Success {
          return;
        }
      }
      killed := true;
      lost := lost + {fd};
      anfds := anfds[fd := EpollFd(nev, nev, PrevGen(NextGen(g)))];
    }

    /** `array_needsize`: new entries are zero. */
    method Grow(n: nat)
      requires Valid()
      modifies this`anfds
      ensures Valid() && |anfds| == if n > |old(anfds)| then n else |old(anfds)|
      ensures forall k | 0 <= k < |anfds| :: anfds[k] == if k < |old(anfds)| then old(anfds)[k] else EpollFd({}, {}, 0)
    {
      if n > |anfds| {
        anfds := anfds + seq(n - |anfds|, i => EpollFd({}, {}, 0));
      }
    }

    /** The user opens a descriptor, or closes one, which drops its registration. */
    method Open(fd: nat)
      requires Valid() && fd !in open
      modifies this`open
      ensures Valid() && open == old(open) + {fd}
    {
      assert fd in kernel ==> Kept(anfds[fd], kernel, open, lost, fd);
      open := open + {fd};
    }

    method Close(fd: nat)
      requires Valid() && fd in open
      modifies this`open, this`kernel, this`lost
      ensures Valid() && open == old(open) - {fd} && kernel == old(kernel) - {fd} && lost == old(lost) + {fd}
    {
      kernel, open, lost := kernel - {fd}, open - {fd}, lost + {fd};
    }

    /**
     `epoll_poll` for one event: an event of another generation, or one that cannot be repaired, asks
     for a fork; one beyond what is wanted makes the registration just what is wanted.
     */
    method Receive(e: Event) returns (delivered: bool)
      requires Valid() && e.fd < |anfds|
      modifies this`anfds, this`kernel, this`postfork
      ensures Valid() && postfork == (old(postfork) || !delivered)
      ensures |anfds| == |old(anfds)| && forall k | 0 <= k < |anfds| :: anfds[k].events == old(anfds)[k].events
      ensures delivered <==> e.gen == old(anfds)[e.fd].egen && (e.got <= anfds[e.fd].events || e.fd in old(kernel))
      ensures SameElsewhere(old(kernel), kernel, e.fd) && (delivered ==> Fitted(e))
      ensures e.got <= anfds[e.fd].events || !delivered ==> kernel == old(kernel)
    {
      hide SameElsewhere;
      var fd, want := e.fd, anfds[e.fd].events;
      assert Kept(anfds[fd], kernel, open, lost, fd);
      delivered := false;
      Nothing(kernel, fd);
      if anfds[fd].egen != e.gen {
        postfork := true;
        return;
      }
      if !(e.got <= want) {
        anfds := anfds[fd := anfds[fd].(emask := want)];
        var errno := EpollCtl(if want != {} then Mod else Del, fd, Registration(want, e.gen), false);
        OthersKept(old(anfds), anfds, old(kernel), kernel, open, lost, lost, fd);
        if errno != Success {
          postfork := true;
          return;
        }
      }
      delivered := true;
    }

    /** What is registered does not exceed what is wanted, if the event did. */
    ghost predicate Fitted(e: Event)
      reads this
    {
      e.fd < |anfds| &&
      (!(e.got <= anfds[e.fd].events) ==>
         if anfds[e.fd].events == {} then e.fd !in kernel
         else e.fd in kernel && kernel[e.fd] == Registration(anfds[e.fd].events, e.gen))
    }

    /** `epoll_poll`: every event is delivered, and every registration that proved too wide is narrowed. */
    method Poll(events: seq<Event>) returns (delivered: seq<Event>)
      requires Valid() && forall i, j | 0 <= i < j < |events| :: events[i].fd != events[j].fd
      requires forall e | e in events :: e.fd in kernel && e.gen == kernel[e.fd].gen
      modifies this`anfds, this`kernel, this`postfork
      ensures Valid() && delivered == events && postfork == old(postfork) && forall e | e in events :: Fitted(e)
      ensures |anfds| == |old(anfds)| && forall k | 0 <= k < |anfds| :: anfds[k].events == old(anfds)[k].events
    {
      delivered := [];
      for i := 0 to |events|
        invariant Valid() && delivered == events[..i] && postfork == old(postfork)
        invariant |anfds| == |old(anfds)| && forall k | 0 <= k < |anfds| :: anfds[k].events == old(anfds)[k].events
        invariant forall k | i <= k < |events| :: events[k].fd in kernel && events[k].gen == kernel[events[k].fd].gen
        invariant forall k | 0 <= k < i :: Fitted(events[k])
      {
        assert Kept(anfds[events[i].fd], kernel, open, lost, events[i].fd);
        var ok := Receive(events[i]);
        if ok {
          delivered := delivered + [events[i]];
        }
      }
    }

    /** `epoll_fork` with its share of `fd_rearm_all`: a new, empty epoll set. */
    method Fork()
      requires Valid()
      modifies this`anfds, this`kernel, this`lost
      ensures Valid() && kernel == map[] && lost == {} && |anfds| == |old(anfds)|
      ensures forall fd | 0 <= fd < |anfds| :: anfds[fd].events == {}
      ensures forall fd | 0 <= fd < |anfds| ::
        anfds[fd] == if old(anfds)[fd].events != {} then EpollFd({}, {}, old(anfds)[fd].egen) else old(anfds)[fd]
    {
      assert forall k | 0 <= k < |anfds| :: Kept(anfds[k], kernel, open, lost, k);
      kernel := map[];
      for fd := 0 to |anfds|
        invariant kernel == map[] && |anfds| == |old(anfds)| && forall k | 0 <= k < |anfds| :: anfds[k].egen < GENERATIONS
        invariant forall k | 0 <= k < |anfds| ::
          anfds[k] == if k < fd && old(anfds)[k].events != {} then EpollFd({}, {}, old(anfds)[k].egen) else old(anfds)[k]
      {
        if anfds[fd].events != {} {
          anfds := anfds[fd := EpollFd({}, {}, anfds[fd].egen)];
        }
      }
      lost := {};
    }
  }

  /** A call that gives the kernel a new registration gives it a new generation. */
  function Generation(a: EpollFd, registered: bool, nev: Mask, killed: bool): nat {
    if nev != {} && !killed && !(registered && a.emask == nev) then NextGen(a.egen) else a.egen
  }

  ghost predicate Kept(a: EpollFd, kernel: map<nat, Registration>, open: set<nat>, lost: set<nat>, fd: nat) {
    && a.egen < GENERATIONS
    && (fd in kernel ==> fd in open && kernel[fd] == Registration(a.emask, a.egen) && (a.events == {} || a.events == a.emask))
    && (fd !in lost && a.events != {} ==> fd in kernel)
  }

  ghost predicate SameElsewhere(k0: map<nat, Registration>, k1: map<nat, Registration>, fd: nat) {
    forall k :: k != fd ==> (k in k1 <==> k in k0) && (k in k1 ==> k1[k] == k0[k])
  }

  lemma Nothing(kernel: map<nat, Registration>, fd: nat)
    ensures SameElsewhere(kernel, kernel, fd)
  {
  }

  /** Only descriptor fd is touched, so all others are kept. */
  lemma OthersKept(a0: seq<EpollFd>, a1: seq<EpollFd>, k0: map<nat, Registration>, k1: map<nat, Registration>, open: set<nat>,
                  lost0: set<nat>, lost1: set<nat>, fd: nat)
    requires fd < |a0| == |a1| && a1 == a0[fd := a1[fd]] && SameElsewhere(k0, k1, fd) && lost0 - {fd} == lost1 - {fd}
    requires forall k :: k in k0 ==> k < |a0|
    requires forall k :: 0 <= k < |a0| ==> Kept(a0[k], k0, open, lost0, k)
    requires Kept(a1[fd], k1, open, lost1, fd)
    ensures forall k :: k in k1 ==> k < |a1|
    ensures forall k :: 0 <= k < |a1| ==> Kept(a1[k], k1, open, lost1, k)
  {
    forall k | 0 <= k < |a1| ensures Kept(a1[k], k1, open, lost1, k) {
      if k != fd {
        assert Kept(a0[k], k0, open, lost0, k);
        assert k in lost0 - {fd} <==> k in lost1 - {fd};
      }
    }
  }

  /** Which error epoll_ctl(2) gives. */
  function Controlled(kernel: map<nat, Registration>, open: set<nat>, op: Ctl, fd: nat, full: bool): Errno {
    if fd !in open then EBADF
    else if op == Add && fd in kernel then EEXIST
    else if op != Add && fd !in kernel then ENOENT
    else if op == Add && full then ENOMEM
    else Success
  }

  /**
   A descriptor closed, opened anew and registered again: an event of the registration before, still
   in flight, is recognised by its generation and not delivered.
   */
  method StaleEvent(epoll: EpollBackend, nev: Mask, full: bool, e: Event) returns (killed: bool, delivered: bool)
    requires epoll.Valid() && e.fd in epoll.open && e.fd < |epoll.anfds| && nev != {} && e.gen == epoll.anfds[e.fd].egen
    modifies epoll
    ensures epoll.Valid() && (killed <==> full) && !delivered
    ensures !killed ==> e.fd in epoll.kernel && epoll.kernel[e.fd].mask == nev && epoll.kernel[e.fd].gen != e.gen && epoll.postfork
  {
    epoll.KeptAt(e.fd);
    GenMoves(e.gen);
    delivered := false;
    epoll.Close(e.fd);
    epoll.Open(e.fd);
    killed := epoll.Modify(e.fd, epoll.anfds[e.fd].events, nev, full);
    if !killed {
      delivered := epoll.Receive(e);
    }
  }

  ghost predicate Matches(anfds: seq<Anfd>, efds: seq<EpollFd>) {
    |anfds| == |efds| && forall fd :: 0 <= fd < |anfds| ==> anfds[fd].events == efds[fd].events
  }

  /** In turn k the backend was to be told about fd while the kernel had no room. */
  ghost predicate FullAt(turns: seq<nat>, full: seq<bool>, fd: nat) {
    exists k :: 0 <= k < |turns| && k < |full| && turns[k] == fd && full[k]
  }

  /** Why a descriptor may be given up: it was not registered, and it is closed or there was no room for it. */
  ghost predicate Excused(fd: nat, registered: set<nat>, open: set<nat>, turns: seq<nat>, full: seq<bool>) {
    fd !in registered && (fd !in open || FullAt(turns, full, fd))
  }

  /** Where things stand in a reification that started from `a0`, with the descriptors in `gone` given up. */
  ghost predicate OnTheWay(a0: seq<Anfd>, a: seq<Anfd>, lost0: set<nat>, lost: set<nat>, gone: set<nat>) {
    && |a| == |a0| && lost <= lost0 + gone && Renewing(a) <= Renewing(a0)
    && (forall fd :: fd in gone ==> fd < |a| && a[fd].head == [])
    && (forall fd :: 0 <= fd < |a| ==> a[fd].head == a0[fd].head || fd in gone)
    && (forall fd :: fd in Renewing(a0) ==> fd in Renewing(a) || fd !in lost || Wanted(a[fd].head) == {})
  }

  ghost predicate AllExcused(gone: set<nat>, registered: set<nat>, open: set<nat>, turns: seq<nat>, full: seq<bool>) {
    forall fd :: fd in gone ==> Excused(fd, registered, open, turns, full)
  }

  /** A call of the backend, and what `fd_kill` does if it fails. */
  method Notify(table: FdTable, epoll: EpollBackend, call: Call, full: bool, ghost i: nat) returns (killed: bool)
    requires table.Valid(i) && epoll.Valid() && call.fd < |table.anfds| == |epoll.anfds|
    requires call.oev == epoll.anfds[call.fd].events && call.nev == table.anfds[call.fd].events == Wanted(table.anfds[call.fd].head)
    requires forall fd | 0 <= fd < |table.anfds| && fd != call.fd :: table.anfds[fd].events == epoll.anfds[fd].events
    modifies table`anfds, table`changes, table.mine`active, table.pend.known`pending, table.pend`queues, table.pend`pendingpri
    modifies epoll`anfds, epoll`kernel, epoll`lost
    ensures table.Valid(i) && epoll.Valid() && Matches(table.anfds, epoll.anfds) && Renewing(table.anfds) == old(Renewing(table.anfds))
    ensures (table.anfds == old(table.anfds) && table.changes == old(table.changes)) || Total(table.anfds) < old(Total(table.anfds))
    ensures |table.anfds| == |old(table.anfds)| && old(epoll.kernel).Keys <= epoll.kernel.Keys
    ensures killed <==> call.nev != {} && call.fd !in old(epoll.kernel) && (call.fd !in epoll.open || full)
    ensures epoll.lost ==
      if killed then old(epoll.lost) + {call.fd} else if call.nev == {} then old(epoll.lost) else old(epoll.lost) - {call.fd}
    ensures forall fd | 0 <= fd < |table.anfds| ::
      table.anfds[fd].head == if killed && fd == call.fd then [] else old(table.anfds)[fd].head
  {
    hide ListedBut, Listed, Rooted, Total, Wanted, Events, Renewing, PendingSet.Valid, FdTable.Told, SameElsewhere;
    epoll.ClosedIsUnregistered(call.fd);
    hide EpollBackend.Valid;
    ghost var a := table.anfds;
    killed := epoll.Modify(call.fd, call.oev, call.nev, full);
    if killed {
      table.Kill(call.fd, i);
      SameEvents(a, table.anfds);
    } else {
      KeysGrow(old(epoll.kernel), epoll.kernel, call.fd);
    }
  }

  lemma KeysGrow(k0: map<nat, Registration>, k1: map<nat, Registration>, fd: nat)
    requires SameElsewhere(k0, k1, fd) && (fd in k0 ==> fd in k1)
    ensures k0.Keys <= k1.Keys
  {
  }

  lemma SameEvents(a: seq<Anfd>, b: seq<Anfd>)
    requires Events(a) == Events(b)
    ensures |a| == |b| && forall k | 0 <= k < |a| :: a[k].events == b[k].events
  {
    assert |Events(a)| == |Events(b)|;
    forall k | 0 <= k < |a| ensures a[k].events == b[k].events {
      assert Events(a)[k] == Events(b)[k];
    }
  }

  /** The i-th descriptor was brought up to date without a call being due. */
  lemma WayRefreshed(a0: seq<Anfd>, a: seq<Anfd>, b: seq<Anfd>, lost0: set<nat>, lost: set<nat>, gone: set<nat>, fd: nat)
    requires OnTheWay(a0, a, lost0, lost, gone) && |b| == |a| && (forall k | 0 <= k < |a| :: b[k].head == a[k].head)
    requires fd !in Renewing(a) && Renewing(b) == Renewing(a) - {fd}
    ensures OnTheWay(a0, b, lost0, lost, gone)
  {
  }

  /** The backend was told about fd. */
  lemma WayNotified(a0: seq<Anfd>, a: seq<Anfd>, b: seq<Anfd>, lost0: set<nat>, was: set<nat>, lost: set<nat>, gone: set<nat>,
                    fd: nat, nev: Mask, killed: bool)
    requires OnTheWay(a0, a, lost0, was, gone) && |b| == |a| && fd < |a| && Renewing(b) == Renewing(a) - {fd}
    requires nev == Wanted(a[fd].head) && (killed ==> nev != {})
    requires lost == if killed then was + {fd} else if nev == {} then was else was - {fd}
    requires forall k | 0 <= k < |a| :: b[k].head == if killed && k == fd then [] else a[k].head
    ensures OnTheWay(a0, b, lost0, lost, if killed then gone + {fd} else gone)
  {
    assert Wanted([]) == {};
  }

  lemma ExcusedMore(gone: set<nat>, registered: set<nat>, open: set<nat>, turns: seq<nat>, full: seq<bool>, fd: nat, killed: bool)
    requires AllExcused(gone, registered, open, turns, full)
    requires killed ==> fd !in registered && (fd !in open || (|turns| < |full| && full[|turns|]))
    ensures AllExcused(if killed then gone + {fd} else gone, registered, open, turns + [fd], full)
  {
    var more := turns + [fd];
    assert more[|turns|] == fd;
    forall x | x in gone ensures Excused(x, registered, open, more, full) {
      assert Excused(x, registered, open, turns, full);
      if FullAt(turns, full, x) {
        var k :| 0 <= k < |turns| && k < |full| && turns[k] == x && full[k];
        assert more[k] == x;
      }
    }
  }

  /**
   `fd_reify` over epoll, with the kernel without room in the turns `full` says.  A descriptor loses
   its watchers only if it was not registered, and is closed or met no room in its turn.  Any other
   descriptor with watchers is then registered with just the events they want, unless it was lost
   before and not set anew.
   */
  method ReifyEpoll(table: FdTable, epoll: EpollBackend, full: seq<bool>) returns (ghost turns: seq<nat>, ghost gone: set<nat>)
    requires table.Valid(0) && epoll.Valid() && Matches(table.anfds, epoll.anfds)
    modifies table`anfds, table`changes, table.mine`active, table.pend.known`pending, table.pend`queues, table.pend`pendingpri
    modifies epoll`anfds, epoll`kernel, epoll`lost
    ensures table.Valid(0) && epoll.Valid() && table.changes == [] && Matches(table.anfds, epoll.anfds)
    ensures AllExcused(gone, old(epoll.kernel).Keys, epoll.open, turns, full)
    ensures |table.anfds| == |old(table.anfds)| && epoll.lost <= old(epoll.lost) + gone
    ensures forall fd | 0 <= fd < |table.anfds| :: table.anfds[fd].head == if fd in gone then [] else old(table.anfds)[fd].head
    ensures forall fd | 0 <= fd < |table.anfds| && Wanted(table.anfds[fd].head) != {} &&
                        (fd !in old(epoll.lost) || fd in old(Renewing(table.anfds))) ::
      fd in epoll.kernel && epoll.kernel[fd].mask == Wanted(table.anfds[fd].head)
  {
    hide ListedBut, Listed, Rooted, Total, Wanted, Renewing, PendingSet.Valid, EpollBackend.Valid, OnTheWay, AllExcused;
    var i := 0;
    turns, gone := [], {};
    Setout(table.anfds, epoll.lost, epoll.kernel.Keys, epoll.open, full);
    while i < |table.changes|
      invariant table.Valid(i) && epoll.Valid() && Matches(table.anfds, epoll.anfds) && |turns| == i
      invariant OnTheWay(old(table.anfds), table.anfds, old(epoll.lost), epoll.lost, gone)
      invariant AllExcused(gone, old(epoll.kernel).Keys, epoll.open, turns, full)
      invariant old(epoll.kernel).Keys <= epoll.kernel.Keys
      decreases Total(table.anfds), |table.changes| - i
    {
      ghost var before, was := table.anfds, epoll.lost;
      var due, call := table.Refresh(i);
      RefreshedEvents(before, table.anfds, due, call);
      var killed := false;
      if due {
        killed := Notify(table, epoll, call, i < |full| && full[i], i + 1);
        WayNotified(old(table.anfds), before, table.anfds, old(epoll.lost), was, epoll.lost, gone, call.fd, call.nev, killed);
      } else {
        WayRefreshed(old(table.anfds), before, table.anfds, old(epoll.lost), was, gone, call.fd);
      }
      ExcusedMore(gone, old(epoll.kernel).Keys, epoll.open, turns, full, call.fd, killed);
      gone := if killed then gone + {call.fd} else gone;
      turns := turns + [call.fd];
      i := i + 1;
    }
    NothingListed(table.anfds, table.changes[i..]);
    NothingRenewing(table.anfds);
    table.changes := [];
    epoll.Exact();
    Arrival(old(table.anfds), table.anfds, old(epoll.lost), epoll.lost, gone);
  }

  lemma Setout(a: seq<Anfd>, lost: set<nat>, registered: set<nat>, open: set<nat>, full: seq<bool>)
    ensures OnTheWay(a, a, lost, lost, {}) && AllExcused({}, registered, open, [], full)
  {
  }

  lemma Arrival(a0: seq<Anfd>, a: seq<Anfd>, lost0: set<nat>, lost: set<nat>, gone: set<nat>)
    requires OnTheWay(a0, a, lost0, lost, gone) && Renewing(a) == {}
    ensures |a| == |a0| && lost <= lost0 + gone
    ensures forall fd | 0 <= fd < |a| :: a[fd].head == if fd in gone then [] else a0[fd].head
    ensures forall fd | 0 <= fd < |a| && Wanted(a[fd].head) != {} && (fd !in lost0 || fd in Renewing(a0)) :: fd !in lost
  {
    assert Wanted([]) == {};
  }

  /** With every watched descriptor open and room throughout, no watcher is lost and all are registered as wanted. */
  method ReifyUndisturbed(table: FdTable, epoll: EpollBackend)
    requires table.Valid(0) && epoll.Valid() && Matches(table.anfds, epoll.anfds)
    requires forall fd | 0 <= fd < |table.anfds| && table.anfds[fd].head != [] ::
      fd in epoll.open && (fd in epoll.lost ==> fd in Renewing(table.anfds))
    modifies table`anfds, table`changes, table.mine`active, table.pend.known`pending, table.pend`queues, table.pend`pendingpri
    modifies epoll`anfds, epoll`kernel, epoll`lost
    ensures table.Valid(0) && epoll.Valid() && table.changes == [] && Matches(table.anfds, epoll.anfds)
    ensures |table.anfds| == |old(table.anfds)|
    ensures forall fd | 0 <= fd < |table.anfds| :: table.anfds[fd].head == old(table.anfds)[fd].head
    ensures forall fd | 0 <= fd < |table.anfds| && Wanted(table.anfds[fd].head) != {} ::
      fd in epoll.kernel && epoll.kernel[fd].mask == Wanted(table.anfds[fd].head)
  {
    assert Wanted([]) == {};
    hide FdTable.Valid, EpollBackend.Valid, Wanted, Renewing;
    ghost var turns, gone;
    turns, gone := ReifyEpoll(table, epoll, []);
  }

  /**
   `epoll_fork` and the `fd_reify` that follows: whatever still has watchers is registered with just
   what they want, and only what is closed or met no room has lost them.
   */
  method RegisterAfresh(table: FdTable, epoll: EpollBackend, full: seq<bool>) returns (ghost turns: seq<nat>, ghost gone: set<nat>)
    requires table.Valid(0) && epoll.Valid() && Matches(table.anfds, epoll.anfds)
    modifies table`anfds, table`changes, table.mine`active, table.pend.known`pending, table.pend`queues, table.pend`pendingpri
    modifies epoll`anfds, epoll`kernel, epoll`lost
    ensures table.Valid(0) && epoll.Valid() && table.changes == [] && Matches(table.anfds, epoll.anfds)
    ensures |table.anfds| == |old(table.anfds)| && AllExcused(gone, {}, epoll.open, turns, full)
    ensures forall fd | 0 <= fd < |table.anfds| :: table.anfds[fd].head == if fd in gone then [] else old(table.anfds)[fd].head
    ensures forall fd | 0 <= fd < |table.anfds| && Wanted(table.anfds[fd].head) != {} ::
      fd in epoll.kernel && epoll.kernel[fd].mask == Wanted(table.anfds[fd].head)
  {
    hide FdTable.Valid, EpollBackend.Valid, Wanted, AllExcused, Renewing;
    epoll.Fork();
    assert epoll.kernel.Keys == {};
    table.RearmAll();
    turns, gone := ReifyEpoll(table, epoll, full);
  }

  lemma RefreshedEvents(a: seq<Anfd>, b: seq<Anfd>, due: bool, call: Call)
    requires |a| == |b| && call.fd < |a| && Events(b) == if due then Events(a)[call.fd := call.nev] else Events(a)
    ensures forall k | 0 <= k < |a| :: b[k].events == if due && k == call.fd then call.nev else a[k].events
  {
    forall k | 0 <= k < |a| ensures b[k].events == if due && k == call.fd then call.nev else a[k].events {
      assert Events(b)[k] == b[k].events;
    }
  }
}
