/** The poll(2) backend: the array handed to the kernel and the index from descriptors into it. */
module Poll {
  import opened PendingQueues
  import opened Pendings
  import opened FdChanges

  /** POLLIN and POLLOUT. */
  datatype PollFlag = In | Out

  datatype PollFd = PollFd(fd: nat, events: set<PollFlag>)

  function Encode(m: Mask): set<PollFlag> {
    (if Read in m then {In} else {}) + (if Write in m then {Out} else {})
  }

  function Decode(s: set<PollFlag>): Mask {
    (if In in s then {Read} else {}) + (if Out in s then {Write} else {})
  }

  /** The index and the first n entries point at each other. */
  ghost predicate Inverse(idxs: seq<int>, polls: seq<PollFd>, n: nat) {
    && n <= |polls|
    && (forall fd :: 0 <= fd < |idxs| ==> idxs[fd] == -1 || (0 <= idxs[fd] < n && polls[idxs[fd]].fd == fd))
    && (forall i :: 0 <= i < n ==> polls[i].fd < |idxs| && idxs[polls[i].fd] == i)
  }

  /** The events the kernel is asked for on a descriptor. */
  function Asked(idxs: seq<int>, polls: seq<PollFd>, fd: nat): Mask
    requires fd < |idxs| && idxs[fd] >= 0 ==> idxs[fd] < |polls|
  {
    if fd < |idxs| && idxs[fd] >= 0 then Decode(polls[idxs[fd]].events) else {}
  }

  class PollBackend {
    var pollidxs: seq<int>
    var polls: seq<PollFd>
    var pollcnt: nat

    constructor ()
      ensures Valid() && pollcnt == 0 && pollidxs == [] && forall fd: nat :: View(fd) == {}
    {
      pollidxs, polls, pollcnt := [], [], 0;
    }

    ghost predicate Valid()
      reads this
    {
      && Inverse(pollidxs, polls, pollcnt)
      && forall i :: 0 <= i < pollcnt ==> polls[i].events != {}
    }

    ghost function View(fd: nat): Mask
      requires Valid()
      reads this
    {
      Asked(pollidxs, polls, fd)
    }

    /** `array_needsize` with `pollidx_init`. */
    method NeedIndex(fd: nat)
      requires Valid()
      modifies this`pollidxs
      ensures Valid() && fd < |pollidxs| && forall k: nat :: View(k) == old(View(k))
    {
      if fd >= |pollidxs| {
        pollidxs := pollidxs + seq(fd + 1 - |pollidxs|, i => -1);
      }
    }

    /** The slot of a descriptor that is wanted or was; a new one goes to the end. */
    method Slot(fd: nat) returns (idx: nat)
      requires Valid() && fd < |pollidxs|
      modifies this
      ensures pollidxs == old(pollidxs)[fd := idx] && Inverse(pollidxs, polls, pollcnt) && idx < pollcnt
      ensures forall i | 0 <= i < pollcnt && i != idx :: polls[i].events != {}
      ensures forall k: nat | k != fd :: Asked(pollidxs, polls, k) == old(View(k))
    {
      if pollidxs[fd] < 0 {
        idx := pollcnt;
        pollidxs := pollidxs[fd := idx];
        pollcnt := pollcnt + 1;
        if pollcnt > |polls| {
          polls := polls + [PollFd(fd, {})];
        }
        polls := polls[idx := PollFd(fd, polls[idx].events)];
      } else {
        idx := pollidxs[fd];
      }
    }

    /** The last entry takes the place of the removed one. */
    method Remove(fd: nat)
      requires fd < |pollidxs| && Inverse(pollidxs, polls, pollcnt) && pollidxs[fd] >= 0
      requires forall i | 0 <= i < pollcnt && i != pollidxs[fd] :: polls[i].events != {}
      modifies this
      ensures Valid() && View(fd) == {} && forall k: nat | k != fd :: View(k) == old(Asked(pollidxs, polls, k))
    {
      var idx := pollidxs[fd];
      pollidxs := pollidxs[fd := -1];
      pollcnt := pollcnt - 1;
      if idx < pollcnt {
        polls := polls[idx := polls[pollcnt]];
        pollidxs := pollidxs[polls[idx].fd := idx];
      }
    }

    /** `poll_modify`. */
    method Modify(fd: nat, oev: Mask, nev: Mask)
      requires Valid() && nev <= {Read, Write}
      modifies this
      ensures Valid()
      ensures forall k: nat :: View(k) == if k == fd && oev != nev then nev else old(View(k))
    {
      if oev == nev {
        return;
      }
      NeedIndex(fd);
      var idx := Slot(fd);
      if nev != {} {
        polls := polls[idx := PollFd(polls[idx].fd, Encode(nev))];
        EncodeDecode(nev);
      } else {
        Remove(fd);
      }
    }

    /** The kernel is asked for just these events. */
    ghost predicate Agrees(ev: seq<Mask>)
      requires Valid()
      reads this
    {
      forall fd: nat :: View(fd) == if fd < |ev| then ev[fd] else {}
    }

    /** The calls of one `fd_reify`, in their order. */
    method Perform(calls: seq<Call>, ghost ev: seq<Mask>, ghost to: seq<Mask>)
      requires Valid() && Agrees(ev) && Leads(ev, calls, to) && forall c | c in calls :: c.nev <= {Read, Write}
      modifies this
      ensures Valid() && Agrees(to)
      decreases |calls|
    {
      if calls != [] {
        var n := |calls| - 1;
        var c := calls[n];
        assert c in calls;
        Perform(calls[..n], ev, to[c.fd := c.oev]);
        Modify(c.fd, c.oev, c.nev);
      }
    }
  }

  lemma EncodeDecode(m: Mask)
    requires m <= {Read, Write}
    ensures Decode(Encode(m)) == m && (m != {} ==> Encode(m) != {})
  {
    assert forall f: Flag :: f in m ==> f == Read || f == Write;
    assert forall f: Flag :: f in Decode(Encode(m)) <==> f in m;
    if m != {} {
      assert Read in m || Write in m by {
        var f :| f in m;
      }
      assert In in Encode(m) || Out in Encode(m);
    }
  }

  /**
   `fd_reify` over poll: whatever was started and stopped since, the kernel is then asked, for every
   descriptor, for just the events its active watchers want.
   */
  method ReifyPoll(table: FdTable, poll: PollBackend) returns (calls: seq<Call>)
    requires table.Valid(0) && poll.Valid() && poll.Agrees(Events(table.anfds))
    modifies table`anfds, table`changes, table.mine`active, table.pend.known`pending, table.pend`queues, table.pend`pendingpri, poll
    ensures table.Valid(0) && poll.Valid() && table.changes == []
    ensures forall fd: nat :: poll.View(fd) == Wanted(Lookup(table.anfds, fd).head)
    ensures |table.anfds| == |old(table.anfds)| && forall fd | 0 <= fd < |table.anfds| :: table.anfds[fd].head == old(table.anfds)[fd].head
  {
    hide ListedBut, Listed, Rooted, PendingSet.Valid, FdTable.Valid, PollBackend.Valid, Leads;
    calls := table.Reify([]);
    poll.Perform(calls, old(Events(table.anfds)), Events(table.anfds));
  }
}
