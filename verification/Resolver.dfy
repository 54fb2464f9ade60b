/** The resolver context: the active queries, sending and resending them, replies, timeouts and their ends. */
module Resolver {
  import opened Basics
  import opened DomainNames
  import opened Queries
  import opened QueryList
  import DnCodec

  /** A callback that was run, with all that had happened to its query. */
  datatype Report = Report(q: Query, status: Status, trace: Trace)

  ghost predicate Reported(log: seq<Report>, q: Query) { exists i :: 0 <= i < |log| && log[i].q == q }

  ghost predicate EachOnce(log: seq<Report>) { forall i, j :: 0 <= i < j < |log| ==> log[i].q != log[j].q }

  /** A submitted query is active, reported or cancelled, and never two of these. */
  ghost predicate Accounted(submitted: set<Query>, active: seq<Query>, log: seq<Report>, cancelled: set<Query>) {
    && EachOnce(log)
    && (forall q :: q in submitted ==> q in active || q in cancelled || Reported(log, q))
    && (forall r :: r in log ==> r.q in submitted)
    && (forall q :: q in active ==> q in submitted && q !in cancelled && !Reported(log, q))
    && (forall q :: q in cancelled ==> q in submitted && !Reported(log, q))
  }

  function Rest(a: seq<Query>, i: nat): seq<Query>
    requires i < |a|
  {
    a[..i] + a[i + 1..]
  }

  /**
   A received packet: whether its header and question can be read, the id, the question if there is
   one, which server it came from and what it says.
   */
  datatype Packet = Packet(readable: bool, id: nat, question: Option<(Labels, nat)>, server: nat, kind: Kind)

  /** The checks of `dns_ioevent` once the id fits. */
  predicate Concerns(p: Packet, s: QState, typcls: nat) {
    && p.readable
    && (if p.question.Some? then DnCodec.SameName(p.question.value.0, s.name) && p.question.value.1 == typcls else p.kind == FormErr)
    && p.server in s.wait
  }

  class Context {
    const cfg: Config
    const qactive: QList
    var nactive: nat
    ghost var submitted: set<Query>
    ghost var cancelled: set<Query>
    ghost var log: seq<Report>

    constructor (cfg: Config)
      requires ValidConfig(cfg)
      ensures Valid() && this.cfg == cfg && qactive.elems == [] && log == [] && submitted == cancelled == {}
    {
      this.cfg, nactive, submitted, cancelled, log := cfg, 0, {}, {}, [];
      qactive := new QList();
    }

    /** In order, except perhaps for the state of one query. */
    ghost predicate ValidBut(q: Query?)
      reads this, qactive, qactive.elems
    {
      && ValidConfig(cfg)
      && qactive.Linked() && SortedByDeadline(qactive.elems) && nactive == |qactive.elems|
      && (forall x :: x in qactive.elems && x != q ==> Fine(cfg, x.s, x.trace))
      && Accounted(submitted, qactive.elems, log, cancelled)
      && (forall r :: r in log ==> Justified(cfg, r.trace, r.status))
    }

    ghost predicate Valid()
      reads this, qactive, qactive.elems
    {
      ValidBut(null)
    }

    /** What the list and the log show of an outcome; `heard` is noted first. */
    twostate predicate Became(q: Query, o: Outcome, now: nat, heard: Trace, i: nat, j: nat)
      reads this, qactive, q
    {
      && i < |old(qactive.elems)|
      && match o
         case Done(status) =>
           qactive.elems == Rest(old(qactive.elems), i) && log == old(log) + [Report(q, status, old(q.trace) + heard)]
         case Going(s, _, _, delay) =>
           && var rest := Rest(old(qactive.elems), i);
           && j <= |rest| && qactive.elems == rest[..j] + [q] + rest[j..] && log == old(log)
           && q.s == s && q.deadline == now + delay && q.trace == old(q.trace) + heard + Shown(o)
         case Quiet(s) =>
           qactive.elems == old(qactive.elems) && log == old(log) && q.s == s && q.trace == old(q.trace) + heard
    }

    /** `dns_find_serv`, on the fields of a query. */
    method FindServ(s: QState) returns (found: bool, r: QState)
      requires s.servi <= cfg.nserv
      ensures r == s.(servi := FirstServer(cfg, s.skip, s.servi)) && found == (r.servi < cfg.nserv)
    {
      r := s;
      while r.servi < cfg.nserv
        invariant r.servi <= cfg.nserv && r == s.(servi := r.servi)
        invariant FirstServer(cfg, s.skip, s.servi) == FirstServer(cfg, r.skip, r.servi)
        decreases cfg.nserv - r.servi
      {
        if r.servi !in r.skip {
          return true, r;
        }
        r := r.(servi := r.servi + 1);
      }
      return false, r;
    }

    /** `dns_next_srch`, likewise. */
    method NextSearch(s: QState) returns (found: bool, r: QState)
      requires Searching(cfg, s)
      ensures if Advance(cfg, s).Some? then found && r == Advance(cfg, s).value else !found
    {
      hide Wire, Body, WellFormed;
      var list := SearchList(cfg);
      r := s;
      while r.next < |list|
        invariant Searching(cfg, r) && r == s.(next := r.next)
        invariant NextUsable(cfg, s.orig, s.next, s.asisDone) == NextUsable(cfg, r.orig, r.next, r.asisDone)
        decreases |list| - r.next
      {
        var l := list[r.next];
        if Usable(cfg, r.orig, r.next, r.asisDone) {
          return true, Renewed(r.(name := r.orig + l, asisDone := r.asisDone || l == [], next := r.next + 1));
        }
        r := r.(next := r.next + 1);
      }
      return false, r;
    }

    /** `dns_end_query`: the query leaves the list and its callback is run. */
    method EndQuery(q: Query, status: Status, ghost i: nat)
      requires ValidBut(q) && i < |qactive.elems| && qactive.elems[i] == q && Justified(cfg, q.trace, status)
      modifies this`nactive, this`log, qactive, qactive.elems`next, qactive.elems`prev
      ensures Valid() && qactive.elems == Rest(old(qactive.elems), i) && log == old(log) + [Report(q, status, q.trace)]
    {
      hide Unique, SortedByDeadline, Fine, Justified, Accounted, QList.Linked;
      RestOf(qactive.elems, i, qactive);
      ReportedOne(submitted, qactive.elems, log, cancelled, i, Report(q, status, q.trace));
      nactive := nactive - 1;
      qactive.Remove(q, i);
      log := log + [Report(q, status, q.trace)];
    }

    /** The end of `dns_send_this`: to the place the new deadline asks for. */
    method Move(q: Query, deadline: nat, ghost i: nat) returns (ghost j: nat)
      requires qactive.Linked() && SortedByDeadline(qactive.elems) && i < |qactive.elems| && qactive.elems[i] == q
      modifies q`deadline, qactive, qactive.elems`next, qactive.elems`prev
      ensures qactive.Linked() && SortedByDeadline(qactive.elems) && q.deadline == deadline
      ensures var rest := Rest(old(qactive.elems), i); j <= |rest| && qactive.elems == rest[..j] + [q] + rest[j..]
    {
      hide Unique, SortedByDeadline, QList.Linked;
      RestOf(qactive.elems, i, qactive);
      q.deadline := deadline;
      qactive.Remove(q, i);
      j := qactive.InsertByDeadline(q);
    }

    /** `dns_send_this` with the query's fields as s; `ok` says whether one of the ten attempts to send succeeds. */
    method SendThis(q: Query, s: QState, v: nat, now: nat, ok: bool, ghost i: nat) returns (ghost j: nat)
      requires ValidBut(q) && i < |qactive.elems| && qactive.elems[i] == q && s.servi <= cfg.nserv
      requires Justified(cfg, q.trace, TempFail)
      requires ok ==> var o := Transmit(cfg, s, v, ok); Fine(cfg, o.s, q.trace + Shown(o))
      modifies this`nactive, this`log, q`s, q`deadline, q`trace, qactive, qactive.elems`next, qactive.elems`prev
      ensures Valid() && Became(q, Transmit(cfg, s, v, ok), now, [], i, j)
    {
      hide Unique, SortedByDeadline, Fine, Justified, Accounted, QList.Linked, FirstServer;
      j := 0;
      assert q.trace + [] == q.trace;
      if !ok {
        EndQuery(q, TempFail, i);
        return;
      }
      ghost var a := qactive.elems;
      var edns := s.setDo || (cfg.edns && v !in s.noEdns);
      var found, r := FindServ(s.(wait := s.wait + {v}));
      q.s := r;
      q.trace := q.trace + [Sent(s.name, v, edns)];
      var delay := if found then 1 else cfg.timeout * Pow2(s.attempt);
      j := Move(q, now + delay, i);
      Rejoined(a, i, j);
      AccountedSame(submitted, a, qactive.elems, log, cancelled);
    }

    /** `dns_send` with the query's fields as s. */
    method Send(q: Query, s: QState, now: nat, ok: bool, ghost i: nat) returns (ghost j: nat)
      requires ValidBut(q) && i < |qactive.elems| && qactive.elems[i] == q && Fine(cfg, s, q.trace)
      modifies this`nactive, this`log, q`s, q`deadline, q`trace, qactive, qactive.elems`next, qactive.elems`prev
      ensures Valid() && Became(q, Queries.Send(cfg, s, ok), now, [], i, j)
    {
      hide Fine, Justified, Context.ValidBut, Transmit, Queries.Send, QList.Linked, SortedByDeadline, Searching;
      SendKeeps(cfg, s, q.trace, ok);
      EndsJustified(cfg, s, q.trace);
      Servers(cfg, s, q.trace);
      j := 0;
      assert q.trace + [] == q.trace;
      var found, r := PickServer(s, ok);
      if found {
        j := SendThis(q, r.(servi := r.servi + 1), r.servi, now, ok, i);
      } else {
        EndQuery(q, TempFail, i);
      }
    }

    /** The choice of `dns_send`: a server in this attempt or the next, if any is left. */
    method PickServer(s: QState, ghost ok: bool) returns (found: bool, r: QState)
      requires s.servi <= cfg.nserv
      ensures found ==> r.servi < cfg.nserv && Queries.Send(cfg, s, ok) == Transmit(cfg, r.(servi := r.servi + 1), r.servi, ok)
      ensures found ==> (Queries.Send(cfg, s, ok).Going? <==> ok)
      ensures !found ==> Queries.Send(cfg, s, ok) == Done(TempFail)
    {
      hide FirstServer;
      found, r := FindServ(s);
      if !found {
        r := r.(servi := 0, attempt := r.attempt + 1);
        if r.attempt < cfg.ntries {
          found, r := FindServ(r);
        }
      }
    }

    ghost method Note(q: Query, e: Entry)
      requires ValidBut(null)
      modifies q`trace
      ensures ValidBut(q) && q.trace == old(q.trace) + [e]
    {
      q.trace := q.trace + [e];
    }

    /** `dns_newid`, as far as it numbers the query. */
    method Renumber(q: Query, id: nat)
      requires ValidBut(q)
      modifies q`id
      ensures ValidBut(q) && q.id == id
    {
      q.id := id;
    }

    /** An empty answer or a name that does not exist: the next name of the search list, under a new id, or the end. */
    method HandleDefinite(q: Query, v: nat, kind: Kind, id: nat, now: nat, ok: bool, ghost i: nat) returns (ghost j: nat)
      requires Valid() && i < |qactive.elems| && qactive.elems[i] == q && v in q.s.wait && Definite(kind)
      modifies this`nactive, this`log, q, qactive, qactive.elems`next, qactive.elems`prev
      ensures Valid() && Became(q, Reply(cfg, old(q.s), v, kind, ok), now, Noted(old(q.s), v, kind), i, j)
      ensures q in qactive.elems ==> q.id == if q.s.next == old(q.s.next) then old(q.id) else id
    {
      hide Fine, Justified, Queries.Send, Reply, Noted, Advance, Context.ValidBut, Searching, InRange, ValidConfig, EmptySeen, Rest;
      Alone(i);
      FineInRange(cfg, q.s, q.trace);
      AdvanceKeeps(cfg, q.s, q.trace, v, kind);
      ExhaustedKeeps(cfg, q.s, q.trace, v, kind);
      ReplyDefinite(cfg, q.s, v, kind, ok);
      j := 0;
      var s := q.s.(wait := q.s.wait - {v});
      ghost var t := q.trace + [Heard(q.s.name, v, kind)];
      Note(q, Heard(q.s.name, v, kind));
      assert t + [] == t;
      var found, r := NextSearch(s);
      if found {
        r := r.(seenNodata := s.seenNodata || kind == Empty);
        FineInRange(cfg, r, t);
        Renumber(q, id);
        SendSameName(cfg, r, ok);
        j := Send(q, r, now, ok, i);
      } else {
        EndQuery(q, if kind == Empty || s.seenNodata then NoData else NxDomain, i);
      }
    }

    lemma Loosened(q: Query)
      requires Valid()
      ensures ValidBut(q)
    {
    }

    /** A query that goes on waiting. */
    method Keep(q: Query, s: QState)
      requires ValidBut(q) && Fine(cfg, s, q.trace)
      modifies q`s
      ensures Valid() && q.s == s
    {
      hide Fine, Justified, Accounted, QList.Linked, SortedByDeadline, Unique;
      q.s := s;
    }

    /** A failure, or a server that may do better without EDNS0. */
    method HandleTrouble(q: Query, v: nat, kind: Kind, now: nat, ok: bool, ghost i: nat) returns (ghost j: nat)
      requires Valid() && i < |qactive.elems| && qactive.elems[i] == q && v in q.s.wait && !Telling(kind)
      modifies this`nactive, this`log, q`s, q`deadline, q`trace, qactive, qactive.elems`next, qactive.elems`prev
      ensures Valid() && Became(q, Reply(cfg, old(q.s), v, kind, ok), now, [], i, j)
    {
      hide Fine, Justified, Queries.Send, Reply, Transmit, Context.ValidBut, InRange, Rest;
      Alone(i);
      ReplyTrouble(cfg, q.s, q.trace, v, kind, ok);
      Loosened(q);
      j := 0;
      assert q.trace + [] == q.trace;
      var s := q.s.(wait := q.s.wait - {v});
      if Unable(kind) && cfg.edns && v !in s.noEdns {
        j := SendThis(q, s.(noEdns := s.noEdns + {v}), v, now, ok, i);
        return;
      }
      s := s.(skip := s.skip + {v});
      if s.wait == {} {
        j := Send(q, s, now, ok, i);
      } else {
        Keep(q, s);
      }
    }

    /** The part of `dns_ioevent` that acts on a reply from server v, for which the query waits. */
    method HandleReply(q: Query, v: nat, kind: Kind, id: nat, now: nat, ok: bool, ghost i: nat) returns (ghost j: nat)
      requires Valid() && i < |qactive.elems| && qactive.elems[i] == q && v in q.s.wait
      modifies this`nactive, this`log, q, qactive, qactive.elems`next, qactive.elems`prev
      ensures Valid() && Became(q, Reply(cfg, old(q.s), v, kind, ok), now, Noted(old(q.s), v, kind), i, j)
      ensures q in qactive.elems ==> q.id == if q.s.next == old(q.s.next) then old(q.id) else id
    {
      hide Fine, Justified, Queries.Send, Reply, Transmit, Context.ValidBut, InRange, Rest;
      Alone(i);
      FineInRange(cfg, q.s, q.trace);
      if kind.Data? {
        j := 0;
        ReplyData(cfg, q.s, v, kind, ok);
        DataJustified(cfg, q.s, q.trace, v, kind);
        Note(q, Heard(q.s.name, v, kind));
        EndQuery(q, Parsed(kind.r), i);
      } else if Definite(kind) {
        j := HandleDefinite(q, v, kind, id, now, ok, i);
      } else {
        ReplyTrouble(cfg, q.s, q.trace, v, kind, ok);
        j := HandleTrouble(q, v, kind, now, ok, i);
      }
    }

    /** The search of `dns_ioevent` for the query a packet belongs to. */
    method FindById(id: nat) returns (q: Query?, ghost i: nat)
      requires Valid()
      ensures i <= |qactive.elems| && q == At(qactive.elems, i) && (q != null ==> q.id == id)
      ensures forall k | 0 <= k < i :: qactive.elems[k].id != id
    {
      q, i := qactive.head, 0;
      while q != null
        invariant i <= |qactive.elems| && q == At(qactive.elems, i)
        invariant forall k | 0 <= k < i :: qactive.elems[k].id != id
        decreases |qactive.elems| - i
      {
        if q.id == id {
          return;
        }
        assert Link(qactive.elems, i);
        q := q.next;
        i := i + 1;
      }
    }

    /**
     `dns_ioevent` for one packet: it acts on the first query with that id if the packet concerns
     it, and is ignored otherwise.  Position i is the first with that id, or the end of the list.
     */
    method Receive(p: Packet, id: nat, now: nat, ok: bool) returns (ghost acted: bool, ghost i: nat, ghost j: nat)
      requires Valid()
      modifies this`nactive, this`log, qactive, qactive.elems
      ensures Valid() && i <= |old(qactive.elems)|
      ensures forall k | 0 <= k < i :: old(qactive.elems[k].id) != p.id
      ensures acted == (i < |old(qactive.elems)| && old(Concerns(p, qactive.elems[i].s, qactive.elems[i].typcls)))
      ensures i < |old(qactive.elems)| ==> old(qactive.elems[i].id) == p.id
      ensures acted ==> Became(old(qactive.elems[i]), old(Reply(cfg, qactive.elems[i].s, p.server, p.kind, ok)), now,
                               old(Noted(qactive.elems[i].s, p.server, p.kind)), i, j)
      ensures acted ==> var q := old(qactive.elems[i]);
        q in qactive.elems ==> q.id == if q.s.next == old(q.s.next) then old(q.id) else id
      ensures !acted ==> unchanged(this, qactive, old(qactive.elems))
      ensures forall k | 0 <= k < |old(qactive.elems)| && k != i :: Untouched(old(qactive.elems[k]))
    {
      hide Accounted, SortedByDeadline, Justified, Fine, Reply, QList.Linked, Concerns;
      acted, j := false, 0;
      var q;
      q, i := FindById(p.id);
      AllDistinct();
      if q != null && Concerns(p, q.s, q.typcls) {
        acted := true;
        Waiting(p, q.s, q.typcls);
        j := HandleReply(q, p.server, p.kind, id, now, ok, i);
      }
    }

    twostate predicate Untouched(q: Query)
      reads q
    {
      q.s == old(q.s) && q.deadline == old(q.deadline) && q.trace == old(q.trace) && q.id == old(q.id)
    }

    /** The query went through `dns_send` once: it waits anew, or its end is reported. */
    twostate predicate Resent(q: Query, ok: bool, now: nat)
      reads this, qactive, q
    {
      && old(q.s).servi <= cfg.nserv
      && var o := Queries.Send(cfg, old(q.s), ok);
         if o.Done? then q !in qactive.elems && Report(q, o.status, old(q.trace)) in log
         else
           && o.Going? && q in qactive.elems && q.s == o.s && q.id == old(q.id)
           && q.deadline == now + o.delay && q.trace == old(q.trace) + Shown(o)
    }

    lemma AllDistinct()
      requires Valid()
      ensures Unique(qactive.elems)
    {
    }

    /** `dns_submit_dn`: the new query, already expired, goes to the head of the list. */
    method Submit(orig: Labels, noSearch: bool, ndots: nat, setDo: bool, id: nat, typcls: nat) returns (q: Query)
      requires Valid() && WellFormed(orig) && |Wire(orig)| <= MAXDN
      modifies this`nactive, this`submitted, qactive, qactive.elems`prev
      ensures Valid() && fresh(q) && qactive.elems == [q] + old(qactive.elems) && submitted == old(submitted) + {q}
      ensures q.s == Submitted(cfg, orig, noSearch, |orig| > ndots, setDo) && q.deadline == 0 && q.trace == []
    {
      hide Fine, Justified, Submitted, SortedByDeadline, Accounted, QList.Linked, Unique;
      SubmittedFine(cfg, orig, noSearch, |orig| > ndots, setDo);
      ghost var a := qactive.elems;
      var s := FirstName(orig, noSearch, ndots, setDo);
      q := new Query(s, id, typcls);
      NewAtHead(a, q);
      Unknown(submitted, a, log, cancelled);
      AccountedNew(submitted, a, log, cancelled, q);
      qactive.AddHead(q);
      nactive := nactive + 1;
      submitted := submitted + {q};
    }

    /** The part of `dns_submit_dn` that finds the first name to try. */
    method FirstName(orig: Labels, noSearch: bool, ndots: nat, setDo: bool) returns (s: QState)
      requires ValidConfig(cfg) && WellFormed(orig)
      ensures s == Submitted(cfg, orig, noSearch, |orig| > ndots, setDo)
    {
      hide Advance;
      s := QState(orig, orig, 0, false, false, setDo, 0, {}, {}, {}, 0);
      if noSearch || |orig| > ndots {
        s := s.(next := if noSearch then |cfg.suffixes| else 0, asisDone := true);
      } else {
        var found, r := NextSearch(s);
        if found {
          s := r;
        }
      }
    }

    /** `dns_cancel`: the query is gone and its callback is not run. */
    method Cancel(q: Query, ghost i: nat)
      requires Valid() && i < |qactive.elems| && qactive.elems[i] == q
      modifies this`nactive, this`cancelled, qactive, qactive.elems`next, qactive.elems`prev
      ensures Valid() && qactive.elems == Rest(old(qactive.elems), i) && cancelled == old(cancelled) + {q}
    {
      hide Unique, SortedByDeadline, Fine, Justified, Accounted, QList.Linked;
      RestOf(qactive.elems, i, qactive);
      CancelledOne(submitted, qactive.elems, log, cancelled, i);
      qactive.Remove(q, i);
      nactive := nactive - 1;
      cancelled := cancelled + {q};
    }

    /**
     `dns_timeouts`: every query that is due goes through `dns_send` exactly once, with `oks` saying for
     which of them sending works, and all others are left alone; the wait is then no longer than to
     the earliest deadline, as far as an int can hold it.
     */
    method Timeouts(maxwait: int, now: nat, oks: Query -> bool) returns (wait: int)
      requires Valid()
      modifies this`nactive, this`log, qactive, qactive.elems
      ensures Valid() && (forall q | q in qactive.elems :: q.deadline > now)
      ensures forall q | q in old(qactive.elems) && old(q.deadline) > now :: q in qactive.elems && Untouched(q)
      ensures forall q | q in old(qactive.elems) && old(q.deadline) <= now :: Resent(q, oks(q), now)
      ensures qactive.elems == [] ==> wait == maxwait
      ensures qactive.elems != [] ==> var w := Int32(qactive.elems[0].deadline - now);
        wait == if maxwait < 0 || maxwait > w then w else maxwait
      ensures qactive.elems != [] && qactive.elems[0].deadline - now < 0x8000_0000 ==>
        0 <= wait <= qactive.elems[0].deadline - now
      ensures qactive.elems != [] && maxwait < 0 ==>
        (wait == qactive.elems[0].deadline - now <==> qactive.elems[0].deadline - now < 0x8000_0000)
      ensures (forall q | q in qactive.elems :: q in old(qactive.elems)) && old(log) <= log
    {
      hide Queries.Send, Context.ValidBut, Load, Int32, QList.Linked;
      wait := maxwait;
      while qactive.head != null
        invariant Valid() && wait == maxwait && (forall q | q in qactive.elems :: q in old(qactive.elems)) && old(log) <= log
        invariant forall q | q in old(qactive.elems) ::
          (q in qactive.elems && Untouched(q)) ||
          (old(q.deadline) <= now && Resent(q, oks(q), now) && (q in qactive.elems ==> q.deadline > now))
        decreases Load(cfg, qactive.elems)
      {
        var q := qactive.head;
        HeadFirst();
        if q.deadline > now {
          var w := Int32(q.deadline - now);
          Int32Exact(q.deadline - now);
          if maxwait < 0 || maxwait > w {
            wait := w;
          }
          AllLater(now);
          return;
        }
        assert q in qactive.elems && Untouched(q);
        assert forall i | 0 <= i < |qactive.elems| :: qactive.elems[i] in old(qactive.elems);
        SendOrEnd(q, now, oks(q));
      }
      HeadLast();
    }

    lemma AllLater(now: nat)
      requires Valid() && qactive.elems != [] && qactive.elems[0].deadline > now
      ensures forall q | q in qactive.elems :: q.deadline > now
    {
      EarliestFirst(qactive.elems, now);
    }

    lemma HeadLast()
      requires Valid() && qactive.head == null
      ensures qactive.elems == []
    {
    }

    /** `dns_send` for the query at the head, which leaves less to do. */
    method SendOrEnd(q: Query, now: nat, ok: bool)
      requires Valid() && q == qactive.head
      modifies this`nactive, this`log, q`s, q`deadline, q`trace, qactive, qactive.elems`next, qactive.elems`prev
      ensures Valid() && old(log) <= log && (forall x | x in qactive.elems :: x in old(qactive.elems))
      ensures Resent(q, ok, now) && (q in qactive.elems ==> q.deadline > now)
      ensures forall x | x in old(qactive.elems) && x != q :: x in qactive.elems
      ensures Load(cfg, qactive.elems) < old(Load(cfg, qactive.elems))
    {
      hide SortedByDeadline, Fine, Justified, Accounted, Queries.Send, Work, Load, Unique, QList.Linked, Rest;
      ghost var a := qactive.elems;
      HeadFirst();
      RestOf(a, 0, qactive);
      FineInRange(cfg, q.s, q.trace);
      SendWorks(cfg, q.s, ok);
      SendWaits(cfg, q.s, ok);
      LoadHead(cfg, a);
      ghost var rest, o := Rest(a, 0), Queries.Send(cfg, q.s, ok);
      ghost var l := Load(cfg, rest);
      RestHolds(a, 0);
      assert q.trace + [] == q.trace;
      ghost var j := Send(q, q.s, now, ok, 0);
      assert Load(cfg, rest) == l;
      if o.Going? {
        LoadJoin(cfg, rest, j, q);
        Rejoined(a, 0, j);
      } else {
        assert log[|log| - 1] == Report(q, o.status, old(q.trace));
      }
    }

    /** A query is in the list once, and in order. */
    lemma Alone(i: nat)
      requires Valid() && i < |qactive.elems|
      ensures qactive.elems[i] !in Rest(qactive.elems, i) && Fine(cfg, qactive.elems[i].s, qactive.elems[i].trace)
    {
      RestOf(qactive.elems, i, qactive);
    }

    lemma HeadFirst()
      requires Valid() && qactive.head != null
      ensures qactive.elems != [] && qactive.elems[0] == qactive.head
    {
    }
  }

  /** The conversion of a time difference to a 32-bit int. */
  function Int32(x: int): int { (x + 0x8000_0000) % 0x1_0000_0000 - 0x8000_0000 }

  /** It changes nothing exactly when the difference fits. */
  lemma Int32Exact(x: int)
    ensures Int32(x) == x <==> -0x8000_0000 <= x < 0x8000_0000
  {
  }

  /** The n-th time in a row that a query is sent, with no server replying. */
  ghost function SentAgain(cfg: Config, s: QState, n: nat): (o: Outcome)
    requires s.servi <= cfg.nserv
    ensures o.Going? ==> o.s.servi <= cfg.nserv
  {
    if n == 0 then Queries.Send(cfg, s, true)
    else
      var o := SentAgain(cfg, s, n - 1);
      if o.Going? then Queries.Send(cfg, o.s, true) else o
  }

  /** With a single server every timeout starts the next attempt, which waits twice as long. */
  lemma {:induction false} DelayDoubles(cfg: Config, s: QState, n: nat)
    requires cfg.nserv == 1 && s.servi == 0 && s.attempt == 0 && s.skip == {} && n < cfg.ntries
    ensures var o := SentAgain(cfg, s, n);
      o.Going? && o.s.servi == 1 && o.s.attempt == n && o.s.skip == {} && o.delay == cfg.timeout * Pow2(n)
  {
    if n > 0 {
      DelayDoubles(cfg, s, n - 1);
    }
  }

  /** With options in the range the resolver admits, a server silent for 24 attempts brings a wait no int can hold. */
  lemma WaitOverflows()
    ensures var cfg := Config(1, 24, 300, false, []);
      var o := SentAgain(cfg, Submitted(cfg, [], true, false, false), 23);
      o.Going? && o.delay == 2516582400 && Int32(o.delay) == -1778384896
  {
    hide SentAgain, Pow2;
    var cfg := Config(1, 24, 300, false, []);
    DelayDoubles(cfg, Submitted(cfg, [], true, false, false), 23);
    Pow23();
  }

  lemma Pow23()
    ensures Pow2(23) == 8388608
  {
    assert Pow2(6) == 64;
    assert Pow2(12) == 4096;
    assert Pow2(18) == 262144;
  }

  lemma EarliestFirst(a: seq<Query>, now: nat)
    requires SortedByDeadline(a) && a != [] && a[0].deadline > now
    ensures forall q | q in a :: q.deadline > now
  {
  }

  /** Sends left in the attempts left. */
  function Work(cfg: Config, s: QState): nat {
    if s.attempt <= cfg.ntries && s.servi <= cfg.nserv then
      1 + (cfg.ntries - s.attempt) * (cfg.nserv + 1) + (cfg.nserv - s.servi)
    else 0
  }

  ghost function Load(cfg: Config, a: seq<Query>): nat
    reads a`s
  {
    if a == [] then 0 else Work(cfg, a[0].s) + Load(cfg, a[1..])
  }

  lemma {:induction false} LoadSplit(cfg: Config, a: seq<Query>, b: seq<Query>)
    ensures Load(cfg, a + b) == Load(cfg, a) + Load(cfg, b)
  {
    if a == [] {
      assert a + b == b;
    } else {
      assert (a + b)[1..] == a[1..] + b;
      LoadSplit(cfg, a[1..], b);
    }
  }

  lemma LoadOne(cfg: Config, q: Query)
    ensures Load(cfg, [q]) == Work(cfg, q.s)
  {
  }

  lemma LoadHead(cfg: Config, a: seq<Query>)
    requires a != []
    ensures Load(cfg, a) == Work(cfg, a[0].s) + Load(cfg, Rest(a, 0))
  {
    assert a[1..] == Rest(a, 0);
  }

  lemma LoadJoin(cfg: Config, rest: seq<Query>, j: nat, q: Query)
    requires j <= |rest|
    ensures Load(cfg, rest[..j] + [q] + rest[j..]) == Load(cfg, rest) + Work(cfg, q.s)
  {
    hide Load, Work;
    LoadSplit(cfg, rest[..j], rest[j..]);
    LoadSplit(cfg, rest[..j] + [q], rest[j..]);
    LoadSplit(cfg, rest[..j], [q]);
    LoadOne(cfg, q);
    assert rest[..j] + rest[j..] == rest;
  }

  lemma FineInRange(cfg: Config, s: QState, t: Trace)
    requires Fine(cfg, s, t)
    ensures InRange(cfg, s) && !Queries.Send(cfg, s, true).Quiet? && !Queries.Send(cfg, s, false).Quiet?
  {
  }

  lemma RestHolds(a: seq<Query>, i: nat)
    requires i < |a|
    ensures forall x | x in a && x != a[i] :: x in Rest(a, i)
  {
    forall x | x in a && x != a[i] ensures x in Rest(a, i) {
      var k :| 0 <= k < |a| && a[k] == x;
      assert Rest(a, i)[if k < i then k else k - 1] == x;
    }
  }

  lemma SendSameName(cfg: Config, s: QState, ok: bool)
    requires InRange(cfg, s)
    ensures var o := Queries.Send(cfg, s, ok); !o.Quiet? && (o.Going? ==> o.s.next == s.next)
  {
  }

  lemma {:induction false} SomeDelay(timeout: nat, n: nat)
    requires timeout > 0
    ensures timeout * Pow2(n) > 0
  {
    if n > 0 {
      SomeDelay(timeout, n - 1);
      assert timeout * Pow2(n) == 2 * (timeout * Pow2(n - 1));
    }
  }

  /** Whatever is sent is waited for at least a second. */
  lemma SendWaits(cfg: Config, s: QState, ok: bool)
    requires s.servi <= cfg.nserv && cfg.timeout > 0
    ensures var o := Queries.Send(cfg, s, ok); !o.Quiet? && (o.Going? ==> o.delay > 0)
  {
    hide Pow2, FirstServer;
    SomeDelay(cfg.timeout, s.attempt);
    SomeDelay(cfg.timeout, s.attempt + 1);
  }

  lemma SendWorks(cfg: Config, s: QState, ok: bool)
    requires InRange(cfg, s)
    ensures var o := Queries.Send(cfg, s, ok); o.Going? ==> Work(cfg, o.s) < Work(cfg, s)
    ensures Work(cfg, s) > 0
  {
    hide FirstServer, Searching;
    Attempts(cfg.ntries - s.attempt, cfg.nserv + 1);
  }

  lemma Attempts(a: nat, n: nat)
    requires a > 0
    ensures a * n == (a - 1) * n + n && (a - 1) * n >= 0
  {
  }

  lemma NewAtHead(a: seq<Query>, q: Query)
    requires SortedByDeadline(a) && q.deadline == 0
    ensures SortedByDeadline([q] + a)
  {
  }

  lemma Unknown(submitted: set<Query>, a: seq<Query>, log: seq<Report>, cancelled: set<Query>)
    requires Accounted(submitted, a, log, cancelled)
    ensures forall q :: q in a ==> q in submitted
  {
  }

  lemma AccountedNew(submitted: set<Query>, a: seq<Query>, log: seq<Report>, cancelled: set<Query>, q: Query)
    requires Accounted(submitted, a, log, cancelled) && q !in submitted
    ensures Accounted(submitted + {q}, [q] + a, log, cancelled)
  {
    assert [q][0] == q;
    assert forall i | 0 <= i < |log| :: log[i] in log;
  }

  lemma CancelledOne(submitted: set<Query>, a: seq<Query>, log: seq<Report>, cancelled: set<Query>, i: nat)
    requires Accounted(submitted, a, log, cancelled) && i < |a| && Unique(a)
    ensures Accounted(submitted, Rest(a, i), log, cancelled + {a[i]})
  {
    Shortened(a, i);
    forall q | q in a ensures q in Rest(a, i) || q == a[i] {
      var k :| 0 <= k < |a| && a[k] == q;
      assert k < i ==> Rest(a, i)[k] == q;
      assert k > i ==> Rest(a, i)[k - 1] == q;
    }
  }

  lemma Waiting(p: Packet, s: QState, typcls: nat)
    requires Concerns(p, s, typcls)
    ensures p.server in s.wait
  {
  }

  lemma ReplyDefinite(cfg: Config, s: QState, v: nat, kind: Kind, ok: bool)
    requires InRange(cfg, s) && Definite(kind)
    ensures var s0 := s.(wait := s.wait - {v});
      && Searching(cfg, s0) && Noted(s, v, kind) == [Heard(s.name, v, kind)]
      && Reply(cfg, s, v, kind, ok) ==
         (if Advance(cfg, s0).None? then Done(if kind == Empty || s0.seenNodata then NoData else NxDomain)
          else Queries.Send(cfg, Advance(cfg, s0).value.(seenNodata := s0.seenNodata || kind == Empty), ok))
  {
  }

  lemma ReplyData(cfg: Config, s: QState, v: nat, kind: Kind, ok: bool)
    requires InRange(cfg, s) && kind.Data?
    ensures Reply(cfg, s, v, kind, ok) == Done(Parsed(kind.r))
  {
  }

  /** What a reply that is no answer makes of a query in order: one more packet to that server, another server, or a wait. */
  lemma ReplyTrouble(cfg: Config, s: QState, t: Trace, v: nat, kind: Kind, ok: bool)
    requires Fine(cfg, s, t) && v in s.wait && !Telling(kind)
    ensures Justified(cfg, t, TempFail) && InRange(cfg, s)
    ensures var s0 := s.(wait := s.wait - {v});
      var again, other := s0.(noEdns := s0.noEdns + {v}), s0.(skip := s0.skip + {v});
      var o := Reply(cfg, s, v, kind, ok);
      && again.servi <= cfg.nserv && (!o.Done? ==> o.s.next == s.next)
      && if Unable(kind) && cfg.edns && v !in s0.noEdns then
           o == Transmit(cfg, again, v, ok) && (ok ==> o.Going? && Fine(cfg, o.s, t + Shown(o)))
         else
           Fine(cfg, other, t) && o == if other.wait == {} then Queries.Send(cfg, other, ok) else Quiet(other)
  {
    hide Fine, Justified, Queries.Send, FirstServer, Advance, Searching;
    ReplyKeeps(cfg, s, t, v, kind, ok);
    EndsJustified(cfg, s, t);
    Unskipped(cfg, s, t, v);
    FineInRange(cfg, s, t);
    assert t + [] == t;
  }

  lemma RestOf(a: seq<Query>, i: nat, l: QList)
    requires i < |a| && l.elems == a && l.Linked() && SortedByDeadline(a)
    ensures SortedByDeadline(Rest(a, i)) && a[i] !in Rest(a, i) && |Rest(a, i)| == |a| - 1
    ensures Unique(a) && forall x :: x in Rest(a, i) ==> x in a
  {
    Shortened(a, i);
  }

  /** Moved within the list, the elements stay the same. */
  lemma Rejoined(a: seq<Query>, i: nat, j: nat)
    requires i < |a| && j < |a|
    ensures var b := Rest(a, i)[..j] + [a[i]] + Rest(a, i)[j..];
      |b| == |a| && b[j] == a[i] && (forall x | x in a :: x in b) && (forall x | x in b :: x in a)
  {
    var r := Rest(a, i);
    var b := r[..j] + [a[i]] + r[j..];
    forall x | x in a ensures x in b {
      var k :| 0 <= k < |a| && a[k] == x;
      if k == i {
        assert b[j] == x;
      } else {
        var m := if k < i then k else k - 1;
        assert r[m] == x;
        assert b[if m < j then m else m + 1] == x;
      }
    }
    forall x | x in b ensures x in a {
      assert x in r || x == a[i];
    }
  }

  lemma AccountedSame(submitted: set<Query>, a: seq<Query>, b: seq<Query>, log: seq<Report>, cancelled: set<Query>)
    requires Accounted(submitted, a, log, cancelled) && (forall x | x in a :: x in b) && (forall x | x in b :: x in a)
    ensures Accounted(submitted, b, log, cancelled)
  {
  }

  lemma ReportedOne(submitted: set<Query>, a: seq<Query>, log: seq<Report>, cancelled: set<Query>, i: nat, r: Report)
    requires Accounted(submitted, a, log, cancelled) && i < |a| && a[i] == r.q && Unique(a)
    ensures Accounted(submitted, Rest(a, i), log + [r], cancelled)
  {
    Shortened(a, i);
    var more := log + [r];
    assert forall k | 0 <= k < |log| :: more[k] == log[k];
    assert more[|log|] == r;
    forall q | q in a ensures q in Rest(a, i) || q == r.q {
      var k :| 0 <= k < |a| && a[k] == q;
      assert k < i ==> Rest(a, i)[k] == q;
      assert k > i ==> Rest(a, i)[k - 1] == q;
    }
    forall q | q in submitted ensures q in Rest(a, i) || q in cancelled || Reported(more, q) {
      if Reported(log, q) {
        var k :| 0 <= k < |log| && log[k].q == q;
        assert more[k].q == q;
      } else if q == r.q {
        assert more[|log|].q == q;
      }
    }
  }
}
