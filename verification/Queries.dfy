/**
 One query of the udns resolver on values: which server is asked next, what a reply or a timeout
 makes of it, when the search list advances and with which status it ends.
 */
module Queries {
  import opened Basics
  import opened DomainNames

  /** `edns` says that the receive buffer is larger than DNS_MAXPACKET; tries and timeout are at least 1 by `dns_set_opt`. */
  datatype Config = Config(nserv: nat, ntries: nat, timeout: nat, edns: bool, suffixes: seq<Labels>)

  predicate ValidConfig(cfg: Config) { cfg.ntries >= 1 && cfg.timeout >= 1 && forall l | l in cfg.suffixes :: WellFormed(l) }

  /** The search list always ends with the root, which leaves a name as it is. */
  function SearchList(cfg: Config): (l: seq<Labels>)
    requires ValidConfig(cfg)
    ensures |l| == |cfg.suffixes| + 1 && forall i | 0 <= i < |l| :: WellFormed(l[i])
  {
    cfg.suffixes + [[]]
  }

  /** The fields of `dns_query` the protocol turns on; the bit masks of servers are sets. */
  datatype QState = QState(
    orig: Labels, name: Labels, next: nat, asisDone: bool, seenNodata: bool, setDo: bool,
    servi: nat, wait: set<nat>, skip: set<nat>, noEdns: set<nat>, attempt: nat)

  datatype Status = TempFail | NxDomain | NoData | Parsed(r: int)

  /** What a reply says: FORMERR or NOTIMPL, any other failure or truncation, or an answer. */
  datatype Kind = FormErr | NotImpl | Failure | Empty | Nx | Data(r: int)

  /** The answers of a server that may do better without EDNS0. */
  predicate Unable(kind: Kind) { kind == FormErr || kind == NotImpl }

  /** What becomes of the query: a transmission with the time to wait for it, nothing, or its end. */
  datatype Outcome =
    | Going(s: QState, to: nat, edns: bool, delay: nat)
    | Quiet(s: QState)
    | Done(status: Status)

  // ---------------------------------------------------------------- the search list

  predicate Usable(cfg: Config, orig: Labels, i: nat, asisDone: bool)
    requires ValidConfig(cfg) && WellFormed(orig) && i < |SearchList(cfg)|
  {
    var l := SearchList(cfg)[i];
    |Wire(l)| + |Body(orig)| <= MAXDN && (l != [] || !asisDone)
  }

  /** The first usable element from i on, or the length of the list. */
  function NextUsable(cfg: Config, orig: Labels, i: nat, asisDone: bool): (k: nat)
    requires ValidConfig(cfg) && WellFormed(orig) && i <= |SearchList(cfg)|
    ensures i <= k <= |SearchList(cfg)|
    ensures k < |SearchList(cfg)| ==> Usable(cfg, orig, k, asisDone)
    ensures forall j | i <= j < k :: !Usable(cfg, orig, j, asisDone)
    decreases |SearchList(cfg)| - i
  {
    if i == |SearchList(cfg)| || Usable(cfg, orig, i, asisDone) then i else NextUsable(cfg, orig, i + 1, asisDone)
  }

  /** `dns_newid`, as far as it resets the query. */
  function Renewed(s: QState): QState { s.(attempt := 0, servi := 0, wait := {}, skip := {}, noEdns := {}) }

  predicate Searching(cfg: Config, s: QState) {
    ValidConfig(cfg) && WellFormed(s.orig) && s.next <= |cfg.suffixes| + 1
  }

  /** `dns_next_srch`. */
  function Advance(cfg: Config, s: QState): Option<QState>
    requires Searching(cfg, s)
  {
    var i := NextUsable(cfg, s.orig, s.next, s.asisDone);
    if i == |SearchList(cfg)| then None
    else
      var l := SearchList(cfg)[i];
      Some(Renewed(s.(name := s.orig + l, asisDone := s.asisDone || l == [], next := i + 1)))
  }

  /** `dns_submit_dn`: with the search off, or a name of many labels, the name is tried as it is first. */
  function Submitted(cfg: Config, orig: Labels, noSearch: bool, manyLabels: bool, setDo: bool): (s: QState)
    requires ValidConfig(cfg) && WellFormed(orig)
  {
    var s := QState(orig, orig, 0, false, false, setDo, 0, {}, {}, {}, 0);
    if noSearch || manyLabels then s.(next := if noSearch then |cfg.suffixes| else 0, asisDone := true)
    else
      var a := Advance(cfg, s);
      if a.None? then s else a.value
  }

  /** The first name to try is always found: the root at the end of the list is usable for any name that fits. */
  lemma SubmitAdvances(cfg: Config, orig: Labels, setDo: bool)
    requires ValidConfig(cfg) && WellFormed(orig) && |Wire(orig)| <= MAXDN
    ensures Advance(cfg, QState(orig, orig, 0, false, false, setDo, 0, {}, {}, {}, 0)).Some?
  {
    var n := |cfg.suffixes|;
    assert Wire([]) == [0];
    assert Usable(cfg, orig, n, false);
  }

  // ---------------------------------------------------------------- sending

  /** The first server from i on that is not to be skipped, or their number. */
  function FirstServer(cfg: Config, skip: set<nat>, i: nat): (k: nat)
    requires i <= cfg.nserv
    ensures i <= k <= cfg.nserv && (k < cfg.nserv ==> k !in skip) && forall j | i <= j < k :: j in skip
    decreases cfg.nserv - i
  {
    if i == cfg.nserv || i !in skip then i else FirstServer(cfg, skip, i + 1)
  }

  predicate InRange(cfg: Config, s: QState) {
    && Searching(cfg, s)
    && s.servi <= cfg.nserv && s.attempt < cfg.ntries
    && (forall v | v in s.wait :: v < cfg.nserv) && (forall v | v in s.noEdns :: v < cfg.nserv)
  }

  /** `dns_send_this`, when sending works or fails ten times in a row. */
  function Transmit(cfg: Config, s: QState, v: nat, ok: bool): Outcome
    requires s.servi <= cfg.nserv
  {
    if !ok then Done(TempFail)
    else
      var k := FirstServer(cfg, s.skip, s.servi);
      Going(s.(wait := s.wait + {v}, servi := k), v, s.setDo || (cfg.edns && v !in s.noEdns),
            if k < cfg.nserv then 1 else cfg.timeout * Pow2(s.attempt))
  }

  /** `dns_send`. */
  function Send(cfg: Config, s: QState, ok: bool): Outcome
    requires s.servi <= cfg.nserv
  {
    var k := FirstServer(cfg, s.skip, s.servi);
    if k < cfg.nserv then Transmit(cfg, s.(servi := k + 1), k, ok)
    else if s.attempt + 1 >= cfg.ntries then Done(TempFail)
    else
      var m := FirstServer(cfg, s.skip, 0);
      if m == cfg.nserv then Done(TempFail)
      else Transmit(cfg, s.(servi := m + 1, attempt := s.attempt + 1), m, ok)
  }

  /** The part of `dns_ioevent` behind the check that this server was asked. */
  function Reply(cfg: Config, s: QState, v: nat, kind: Kind, ok: bool): Outcome
    requires InRange(cfg, s)
  {
    var s0 := s.(wait := s.wait - {v});
    if kind.Data? then Done(Parsed(kind.r))
    else if Definite(kind) then
      var a := Advance(cfg, s0);
      if a.None? then Done(if kind == Empty || s0.seenNodata then NoData else NxDomain)
      else Send(cfg, a.value.(seenNodata := s0.seenNodata || kind == Empty), ok)
    else if Unable(kind) && cfg.edns && v !in s0.noEdns then Transmit(cfg, s0.(noEdns := s0.noEdns + {v}), v, ok)
    else
      var s1 := s0.(skip := s0.skip + {v});
      if s1.wait == {} then Send(cfg, s1, ok) else Quiet(s1)
  }

  // ---------------------------------------------------------------- what the choices mean

  /** Every candidate fits, is the submitted name with an element of the list, and no usable element is passed over. */
  lemma AdvanceFits(cfg: Config, s: QState)
    requires Searching(cfg, s)
    ensures var a := Advance(cfg, s);
      if a.None? then forall i | s.next <= i < |SearchList(cfg)| :: !Usable(cfg, s.orig, i, s.asisDone)
      else
        && s.next < a.value.next <= |SearchList(cfg)|
        && a.value.name == s.orig + SearchList(cfg)[a.value.next - 1]
        && WellFormed(a.value.name) && |Wire(a.value.name)| <= MAXDN
        && forall i | s.next <= i < a.value.next - 1 :: !Usable(cfg, s.orig, i, s.asisDone)
  {
    var a := Advance(cfg, s);
    if a.Some? {
      BodyAppend(s.orig, SearchList(cfg)[a.value.next - 1]);
    }
  }

  /** A query submitted without search tries the name as it is and nothing else. */
  lemma NoSearchTriesOne(cfg: Config, orig: Labels, manyLabels: bool, setDo: bool)
    requires ValidConfig(cfg) && WellFormed(orig)
    ensures var s := Submitted(cfg, orig, true, manyLabels, setDo); s.name == orig && Advance(cfg, s).None?
  {
    assert SearchList(cfg)[|cfg.suffixes|] == [];
  }

  /** Sending picks a server that has not failed, and gives up exactly when none is left in any attempt or sending fails. */
  lemma SendPicks(cfg: Config, s: QState, ok: bool)
    requires s.servi <= cfg.nserv
    ensures var o := Send(cfg, s, ok);
      && (o.Going? ==> o.to < cfg.nserv && o.to !in s.skip && o.s.wait == s.wait + {o.to})
      && (o.Going? <==> ok && exists v :: Choice(cfg, s, v))
  {
    var k := FirstServer(cfg, s.skip, s.servi);
    if k < cfg.nserv {
      assert Choice(cfg, s, k);
    } else if s.attempt + 1 < cfg.ntries {
      var m := FirstServer(cfg, s.skip, 0);
      if m < cfg.nserv {
        assert Choice(cfg, s, m);
      }
    }
  }

  /** A server that may still be asked: one not skipped, later in this attempt or anywhere in the next. */
  predicate Choice(cfg: Config, s: QState, v: nat) {
    v < cfg.nserv && v !in s.skip && (s.servi <= v || s.attempt + 1 < cfg.ntries)
  }

  /**
   A server that may do better without EDNS0 is asked again at once, and from then on for this name
   without EDNS0, unless the query asks for DNSSEC records, which need it.
   */
  lemma EdnsFallback(cfg: Config, s: QState, v: nat, kind: Kind)
    requires InRange(cfg, s)
    ensures Unable(kind) && cfg.edns && v !in s.noEdns ==>
      var o := Reply(cfg, s, v, kind, true); o.Going? && o.to == v && o.edns == s.setDo && v in o.s.noEdns
    ensures var o := Send(cfg, s, true);
      o.Going? ==> o.edns == (s.setDo || (cfg.edns && o.to !in s.noEdns)) && o.s.noEdns == s.noEdns
  {
  }

  // ---------------------------------------------------------------- what happened to a query

  datatype Entry = Sent(name: Labels, v: nat, edns: bool) | Heard(name: Labels, v: nat, kind: Kind)

  type Trace = seq<Entry>

  predicate Definite(kind: Kind) { kind == Empty || kind == Nx }

  /** An answer to the question, with data or without. */
  predicate Telling(kind: Kind) { Definite(kind) || kind.Data? }

  /** The entry a reply leaves if it answers the question. */
  function Noted(s: QState, v: nat, kind: Kind): Trace {
    if Telling(kind) then [Heard(s.name, v, kind)] else []
  }

  function Shown(o: Outcome): Trace {
    if o.Going? then [Sent(o.s.name, o.to, o.edns)] else []
  }

  predicate Asked(t: Trace, name: Labels, v: nat) { Sent(name, v, true) in t || Sent(name, v, false) in t }

  ghost predicate Told(t: Trace, name: Labels, kind: Kind) { exists v :: Heard(name, v, kind) in t }

  /** Transmissions for the name being tried: those since the last answer. */
  function Current(t: Trace): nat {
    if t == [] || t[|t| - 1].Heard? then 0 else Current(t[..|t| - 1]) + 1
  }

  /** All transmissions. */
  function Transmissions(t: Trace): nat {
    if t == [] then 0 else Transmissions(t[..|t| - 1]) + (if t[|t| - 1].Sent? then 1 else 0)
  }

  function Answers(t: Trace): nat {
    if t == [] then 0 else Answers(t[..|t| - 1]) + (if t[|t| - 1].Heard? then 1 else 0)
  }

  /** Every answer comes from a server that had been asked for that name. */
  ghost predicate Backed(t: Trace) {
    forall i :: 0 <= i < |t| && t[i].Heard? ==> Telling(t[i].kind) && Asked(t[..i], t[i].name, t[i].v)
  }

  /** Every name tried but this one was definitely answered. */
  ghost predicate Settled(t: Trace, name: Labels) {
    forall e :: e in t && e.Sent? && e.name != name ==> Told(t, e.name, Nx) || Told(t, e.name, Empty)
  }

  ghost predicate AllAsked(t: Trace, name: Labels, wait: set<nat>) { forall v :: v in wait ==> Asked(t, name, v) }

  ghost predicate EmptySeen(t: Trace) { exists n :: Told(t, n, Empty) }

  /** How often a name may be transmitted: every server once an attempt, and once more without EDNS0. */
  function PerName(cfg: Config): nat { cfg.nserv * (cfg.ntries + 1) }

  /** At no time were there more than b transmissions for the name then tried. */
  ghost predicate Rationed(t: Trace, b: nat) {
    t == [] || (Current(t) <= b && Rationed(t[..|t| - 1], b))
  }

  /** What holds of an active query and its past. */
  ghost predicate Fine(cfg: Config, s: QState, t: Trace) {
    && InRange(cfg, s) && AllAsked(t, s.name, s.wait) && Backed(t) && Settled(t, s.name)
    && (s.seenNodata <==> EmptySeen(t))
    && Current(t) <= s.attempt * cfg.nserv + s.servi + |s.noEdns|
    && Transmissions(t) <= Answers(t) * PerName(cfg) + Current(t)
    && Answers(t) <= s.next && Rationed(t, PerName(cfg))
  }

  // ---------------------------------------------------------------- counting

  lemma {:induction false} Few(n: nat, s: set<nat>)
    requires forall v | v in s :: v < n
    ensures |s| <= n
  {
    if n == 0 {
      assert s == {};
    } else {
      Few(n - 1, s - {n - 1});
    }
  }

  lemma Times(a: nat, b: nat, n: nat)
    requires a <= b
    ensures a * n <= b * n && (a + 1) * n == a * n + n
  {
  }

  /** At most every server once an attempt and once more, for the name being tried. */
  lemma NameBound(cfg: Config, s: QState, t: Trace)
    requires Fine(cfg, s, t)
    ensures Current(t) <= PerName(cfg)
  {
    hide Backed, Settled, EmptySeen, Current, Transmissions, Answers, Rationed, AllAsked;
    Few(cfg.nserv, s.noEdns);
    Rounds(s.attempt, cfg.ntries, cfg.nserv);
  }

  lemma Rounds(a: nat, b: nat, n: nat)
    requires a < b
    ensures a * n + n + n <= n * (b + 1)
  {
    Times(a + 1, b, n);
    Times(a, b, n);
    assert n * (b + 1) == b * n + n;
  }

  /** And as often for every element of the search list. */
  lemma TotalBound(cfg: Config, s: QState, t: Trace)
    requires Fine(cfg, s, t)
    ensures Transmissions(t) <= (|cfg.suffixes| + 2) * PerName(cfg)
  {
    hide Backed, Settled, EmptySeen, Current, Transmissions, Answers, Rationed, AllAsked, PerName;
    NameBound(cfg, s, t);
    Times(Answers(t), |cfg.suffixes| + 1, PerName(cfg));
    Times(|cfg.suffixes| + 1, |cfg.suffixes| + 1, PerName(cfg));
  }

  lemma Appended(t: Trace, e: Entry)
    ensures Current(t + [e]) == if e.Heard? then 0 else Current(t) + 1
    ensures Transmissions(t + [e]) == Transmissions(t) + (if e.Sent? then 1 else 0)
    ensures Answers(t + [e]) == Answers(t) + (if e.Heard? then 1 else 0)
    ensures forall b: nat :: Rationed(t + [e], b) <==> Rationed(t, b) && Current(t + [e]) <= b
  {
    assert (t + [e])[..|t|] == t;
  }

  // ---------------------------------------------------------------- what the steps keep

  lemma StillTold(t: Trace, e: Entry, name: Labels, kind: Kind)
    ensures Told(t, name, kind) ==> Told(t + [e], name, kind)
    ensures Told(t + [e], name, kind) ==> Told(t, name, kind) || (e.Heard? && e.name == name && e.kind == kind)
  {
    if Told(t, name, kind) {
      var v :| Heard(name, v, kind) in t;
      assert Heard(name, v, kind) in t + [e];
    }
  }

  /** A transmission for the current name. */
  lemma SentKeeps(t: Trace, name: Labels, v: nat, edns: bool)
    requires Backed(t) && Settled(t, name)
    ensures var u := t + [Sent(name, v, edns)];
      Backed(u) && Settled(u, name) && (EmptySeen(u) <==> EmptySeen(t)) && Asked(u, name, v)
  {
    var e := Sent(name, v, edns);
    var u := t + [e];
    assert e in u by {
      assert u[|t|] == e;
    }
    forall i | 0 <= i < |u| && u[i].Heard? ensures Telling(u[i].kind) && Asked(u[..i], u[i].name, u[i].v) {
      assert u[i] == t[i] && u[..i] == t[..i];
    }
    forall x | x in u && x.Sent? && x.name != name ensures Told(u, x.name, Nx) || Told(u, x.name, Empty) {
      assert x in t;
      StillTold(t, e, x.name, Nx);
      StillTold(t, e, x.name, Empty);
    }
    forall n ensures Told(u, n, Empty) <==> Told(t, n, Empty) {
      StillTold(t, e, n, Empty);
    }
  }

  lemma OneMoreAsked(t: Trace, e: Entry, name: Labels, wait: set<nat>, v: nat)
    requires AllAsked(t, name, wait) && Asked(t + [e], name, v)
    ensures AllAsked(t + [e], name, wait + {v})
  {
    forall x | x in wait + {v} ensures Asked(t + [e], name, x) {
      assert x == v || Asked(t, name, x);
    }
  }

  /** In order, with room for one more transmission. */
  ghost predicate Ready(cfg: Config, s: QState, t: Trace) {
    && InRange(cfg, s) && AllAsked(t, s.name, s.wait) && Backed(t) && Settled(t, s.name)
    && (s.seenNodata <==> EmptySeen(t))
    && Current(t) + 1 <= s.attempt * cfg.nserv + s.servi + |s.noEdns|
    && Transmissions(t) <= Answers(t) * PerName(cfg) + Current(t)
    && Answers(t) <= s.next && Rationed(t, PerName(cfg))
  }

  /** Every server that is passed makes room, in this attempt or in the next. */
  lemma FineReady(cfg: Config, s: QState, t: Trace, k: nat)
    requires Fine(cfg, s, t) && k < cfg.nserv
    ensures s.servi <= k ==> Ready(cfg, s.(servi := k + 1), t)
    ensures s.attempt + 1 < cfg.ntries ==> Ready(cfg, s.(servi := k + 1, attempt := s.attempt + 1), t)
  {
    hide Backed, Settled, EmptySeen, Current, Transmissions, Answers, Rationed, AllAsked, PerName;
    Times(s.attempt, s.attempt, cfg.nserv);
  }

  /** A transmission that is accounted for, by the next server or by one more server known not to do EDNS0. */
  lemma TransmitKeeps(cfg: Config, s: QState, t: Trace, v: nat, ok: bool)
    requires Ready(cfg, s, t) && v < cfg.nserv
    ensures var o := Transmit(cfg, s, v, ok);
      && !o.Quiet? && (o.Done? ==> o.status == TempFail)
      && (o.Going? ==> Fine(cfg, o.s, t + Shown(o)) && o.s.name == s.name && o.s.next == s.next && o.to == v)
  {
    hide Backed, Settled, EmptySeen, Current, Transmissions, Answers, Rationed, AllAsked;
    var o := Transmit(cfg, s, v, ok);
    if o.Going? {
      var e := Sent(s.name, v, o.edns);
      SentKeeps(t, s.name, v, o.edns);
      Appended(t, e);
      OneMoreAsked(t, e, s.name, s.wait, v);
      Few(cfg.nserv, s.noEdns);
      Rounds(s.attempt, cfg.ntries, cfg.nserv);
    }
  }

  lemma Servers(cfg: Config, s: QState, t: Trace)
    requires Fine(cfg, s, t)
    ensures InRange(cfg, s)
  {
  }

  lemma SendKeeps(cfg: Config, s: QState, t: Trace, ok: bool)
    requires Fine(cfg, s, t)
    ensures var o := Send(cfg, s, ok);
      && !o.Quiet? && (o.Done? ==> o.status == TempFail)
      && (o.Going? ==> Fine(cfg, o.s, t + Shown(o)) && o.s.name == s.name && o.s.next == s.next)
  {
    hide Fine, Ready, Transmit, InRange;
    Servers(cfg, s, t);
    var k := FirstServer(cfg, s.skip, s.servi);
    if k < cfg.nserv {
      FineReady(cfg, s, t, k);
      TransmitKeeps(cfg, s.(servi := k + 1), t, k, ok);
      assert Send(cfg, s, ok) == Transmit(cfg, s.(servi := k + 1), k, ok);
    } else if s.attempt + 1 < cfg.ntries {
      var m := FirstServer(cfg, s.skip, 0);
      if m < cfg.nserv {
        FineReady(cfg, s, t, m);
        TransmitKeeps(cfg, s.(servi := m + 1, attempt := s.attempt + 1), t, m, ok);
        assert Send(cfg, s, ok) == Transmit(cfg, s.(servi := m + 1, attempt := s.attempt + 1), m, ok);
      }
    }
  }

  /** An answer from a server that was asked is backed. */
  lemma HeardBacked(t: Trace, name: Labels, v: nat, kind: Kind)
    requires Backed(t) && Asked(t, name, v) && Telling(kind)
    ensures Backed(t + [Heard(name, v, kind)])
  {
    hide Asked;
    var u := t + [Heard(name, v, kind)];
    forall i | 0 <= i < |u| && u[i].Heard? ensures Telling(u[i].kind) && Asked(u[..i], u[i].name, u[i].v) {
      if i < |t| {
        assert u[i] == t[i] && u[..i] == t[..i];
      } else {
        assert u[..i] == t;
      }
    }
  }

  /** A definite answer for the current name settles it. */
  lemma HeardKeeps(s: QState, t: Trace, v: nat, kind: Kind, name: Labels)
    requires Backed(t) && Settled(t, s.name) && Asked(t, s.name, v) && Definite(kind)
    ensures var u := t + [Heard(s.name, v, kind)];
      && Backed(u) && Settled(u, name) && Told(u, s.name, kind)
      && (EmptySeen(u) <==> EmptySeen(t) || kind == Empty)
  {
    var e := Heard(s.name, v, kind);
    var u := t + [e];
    assert e in u by {
      assert u[|t|] == e;
    }
    HeardBacked(t, s.name, v, kind);
    assert Told(u, s.name, kind);
    forall x | x in u && x.Sent? && x.name != name ensures Told(u, x.name, Nx) || Told(u, x.name, Empty) {
      assert x in t;
      StillTold(t, e, x.name, Nx);
      StillTold(t, e, x.name, Empty);
    }
    forall n ensures Told(u, n, Empty) <==> Told(t, n, Empty) || (kind == Empty && n == s.name) {
      StillTold(t, e, n, Empty);
    }
    assert EmptySeen(t) ==> EmptySeen(u) by {
      if EmptySeen(t) {
        var n :| Told(t, n, Empty);
        assert Told(u, n, Empty);
      }
    }
  }

  /** The next candidate starts afresh, with the answers so far on record. */
  lemma AdvanceKeeps(cfg: Config, s: QState, t: Trace, v: nat, kind: Kind)
    requires Fine(cfg, s, t) && v in s.wait && Definite(kind)
    ensures var a := Advance(cfg, s.(wait := s.wait - {v}));
      a.Some? ==>
        var n := a.value.(seenNodata := s.seenNodata || kind == Empty);
        Fine(cfg, n, t + [Heard(s.name, v, kind)]) && s.next < n.next && n.orig == s.orig
  {
    hide Backed, Settled, EmptySeen, Current, Transmissions, Answers, Rationed, Asked, PerName, NextUsable;
    var a := Advance(cfg, s.(wait := s.wait - {v}));
    if a.Some? {
      HeardKeeps(s, t, v, kind, a.value.name);
      Appended(t, Heard(s.name, v, kind));
      NameBound(cfg, s, t);
      Times(Answers(t), Answers(t), PerName(cfg));
    }
  }

  /** A reported status fits what the servers said. */
  ghost predicate Justified(cfg: Config, t: Trace, status: Status) {
    && Backed(t) && Rationed(t, PerName(cfg))
    && Transmissions(t) <= (|cfg.suffixes| + 2) * PerName(cfg)
    && (status == NxDomain ==> !EmptySeen(t) && forall e :: e in t && e.Sent? ==> Told(t, e.name, Nx))
    && (status == NoData ==> EmptySeen(t))
    && (status.Parsed? ==> t != [] && t[|t| - 1].Heard? && t[|t| - 1].kind == Data(status.r))
  }

  /** With the search exhausted, the status says whether any name had an empty answer. */
  lemma ExhaustedKeeps(cfg: Config, s: QState, t: Trace, v: nat, kind: Kind)
    requires Fine(cfg, s, t) && v in s.wait && Definite(kind)
    ensures var u := t + [Heard(s.name, v, kind)];
      && Justified(cfg, u, if kind == Empty || s.seenNodata then NoData else NxDomain)
      && (EmptySeen(u) <==> kind == Empty || s.seenNodata)
  {
    hide Backed, EmptySeen, Current, Transmissions, Answers, Rationed, Asked, PerName, Told, Settled;
    HeardKeeps(s, t, v, kind, s.name);
    Appended(t, Heard(s.name, v, kind));
    TotalBound(cfg, s, t);
    if kind == Nx && !s.seenNodata {
      AllToldNx(t + [Heard(s.name, v, kind)], s.name);
    }
  }

  lemma AllToldNx(u: Trace, name: Labels)
    requires Settled(u, name) && Told(u, name, Nx) && !EmptySeen(u)
    ensures forall e :: e in u && e.Sent? ==> Told(u, e.name, Nx)
  {
  }

  /** Giving up is always justified. */
  lemma EndsJustified(cfg: Config, s: QState, t: Trace)
    requires Fine(cfg, s, t)
    ensures Justified(cfg, t, TempFail)
  {
    hide Backed, EmptySeen, Current, Transmissions, Answers, Rationed, PerName, Settled;
    TotalBound(cfg, s, t);
  }

  /** Data from a server the query waits for is justified as its result. */
  lemma DataJustified(cfg: Config, s: QState, t: Trace, v: nat, kind: Kind)
    requires Fine(cfg, s, t) && v in s.wait && kind.Data?
    ensures Justified(cfg, t + [Heard(s.name, v, kind)], Parsed(kind.r))
  {
    hide Backed, EmptySeen, Current, Transmissions, Answers, Rationed, PerName, Settled, Asked;
    TotalBound(cfg, s, t);
    HeardBacked(t, s.name, v, kind);
    Appended(t, Heard(s.name, v, kind));
  }

  lemma Unskipped(cfg: Config, s: QState, t: Trace, v: nat)
    requires Fine(cfg, s, t)
    ensures Fine(cfg, s.(wait := s.wait - {v}, skip := s.skip + {v}), t)
  {
    hide Backed, EmptySeen, Current, Transmissions, Answers, Rationed, Asked, PerName, Settled;
  }

  /** A server that may do better without EDNS0 makes room for one more transmission. */
  lemma Relearnt(cfg: Config, s: QState, t: Trace, v: nat)
    requires Fine(cfg, s, t) && v in s.wait && v !in s.noEdns
    ensures v < cfg.nserv && Ready(cfg, s.(wait := s.wait - {v}, noEdns := s.noEdns + {v}), t)
  {
    hide Backed, EmptySeen, Current, Transmissions, Answers, Rationed, Asked, PerName, Settled;
    assert |s.noEdns + {v}| == |s.noEdns| + 1;
  }

  /**
   A reply keeps an active query in order, or ends it with a status the past justifies.  Only a
   definite answer changes the name that is tried.
   */
  lemma ReplyKeeps(cfg: Config, s: QState, t: Trace, v: nat, kind: Kind, ok: bool)
    requires Fine(cfg, s, t) && v in s.wait
    ensures var o, u := Reply(cfg, s, v, kind, ok), t + Noted(s, v, kind);
      && (o.Done? ==> Justified(cfg, u, o.status))
      && (!o.Done? ==> Fine(cfg, o.s, u + Shown(o)) && (!Definite(kind) ==> o.s.name == s.name && o.s.next == s.next))
  {
    hide Fine, Ready, Justified, Send, Transmit, Advance, Shown;
    Servers(cfg, s, t);
    var s0 := s.(wait := s.wait - {v});
    assert t + [] == t;
    if kind.Data? {
      DataJustified(cfg, s, t, v, kind);
    } else if Definite(kind) {
      ExhaustedKeeps(cfg, s, t, v, kind);
      AdvanceKeeps(cfg, s, t, v, kind);
      var a := Advance(cfg, s0);
      if a.Some? {
        var n := a.value.(seenNodata := s.seenNodata || kind == Empty);
        var u := t + [Heard(s.name, v, kind)];
        SendKeeps(cfg, n, u, ok);
        EndsJustified(cfg, n, u);
      }
    } else {
      EndsJustified(cfg, s, t);
      if Unable(kind) && cfg.edns && v !in s0.noEdns {
        Relearnt(cfg, s, t, v);
        TransmitKeeps(cfg, s0.(noEdns := s0.noEdns + {v}), t, v, ok);
      } else {
        Unskipped(cfg, s, t, v);
        SendKeeps(cfg, s0.(skip := s0.skip + {v}), t, ok);
        QuietKeeps(cfg, s0.(skip := s0.skip + {v}), t);
      }
    }
  }

  lemma QuietKeeps(cfg: Config, s: QState, t: Trace)
    requires Fine(cfg, s, t)
    ensures Fine(cfg, s, t + Shown(Quiet(s)))
  {
    assert t + [] == t;
  }

  /** A query starts in order. */
  lemma SubmittedFine(cfg: Config, orig: Labels, noSearch: bool, manyLabels: bool, setDo: bool)
    requires ValidConfig(cfg) && WellFormed(orig) && |Wire(orig)| <= MAXDN
    ensures Fine(cfg, Submitted(cfg, orig, noSearch, manyLabels, setDo), [])
  {
    SubmitAdvances(cfg, orig, setDo);
    assert forall n :: !Told([], n, Empty);
  }

  // ---------------------------------------------------------------- every query ends

  /** What can happen to an active query: its deadline passes, or a server it waits for replies. */
  datatype Event = Timeout(ok: bool) | Answer(v: nat, kind: Kind, ok: bool)

  function React(cfg: Config, s: QState, e: Event): Outcome
    requires InRange(cfg, s)
  {
    if e.Timeout? then Send(cfg, s, e.ok) else Reply(cfg, s, e.v, e.kind, e.ok)
  }

  function Record(s: QState, e: Event): Trace {
    if e.Timeout? then [] else Noted(s, e.v, e.kind)
  }

  /** a is below b: fewer elements left to search, attempts, servers in this attempt, servers to learn about, replies to come. */
  ghost predicate Below(cfg: Config, a: QState, b: QState) {
    a.next > b.next || (a.next == b.next &&
    (a.attempt > b.attempt || (a.attempt == b.attempt &&
    (a.servi > b.servi || (a.servi == b.servi &&
    (|a.noEdns| > |b.noEdns| || (a.noEdns == b.noEdns && |a.wait| < |b.wait|)))))))
  }

  lemma SendDescends(cfg: Config, s: QState, ok: bool)
    requires InRange(cfg, s)
    ensures var o := Send(cfg, s, ok); !o.Done? ==> Below(cfg, o.s, s) && InRange(cfg, o.s) && o.s.next == s.next
  {
  }

  /** Whatever happens ends the query or brings it down in the order. */
  lemma ReactDescends(cfg: Config, s: QState, e: Event)
    requires InRange(cfg, s) && (e.Answer? ==> e.v in s.wait)
    ensures var o := React(cfg, s, e); !o.Done? ==> Below(cfg, o.s, s) && InRange(cfg, o.s)
  {
    hide NextUsable, FirstServer;
    if e.Timeout? {
      SendDescends(cfg, s, e.ok);
    } else {
      var s0 := s.(wait := s.wait - {e.v});
      if Definite(e.kind) {
        var a := Advance(cfg, s0);
        if a.Some? {
          SendDescends(cfg, a.value.(seenNodata := s0.seenNodata || e.kind == Empty), e.ok);
        }
      } else if !e.kind.Data? {
        if Unable(e.kind) && cfg.edns && e.v !in s0.noEdns {
          assert |s0.noEdns + {e.v}| == |s0.noEdns| + 1;
        } else {
          SendDescends(cfg, s0.(skip := s0.skip + {e.v}), e.ok);
          assert |s0.wait| < |s.wait|;
        }
      }
    }
  }

  /** Everything that happens, whatever the state, is one of the events the state admits. */
  ghost predicate Admissible(ev: (nat, QState) -> Event) {
    forall i, s :: ev(i, s).Answer? ==> ev(i, s).v in s.wait
  }

  /** The rest of a query's life from its i-th event on: all that is sent and heard, and the status it ends with. */
  ghost function Life(cfg: Config, s: QState, t: Trace, ev: (nat, QState) -> Event, i: nat): (Trace, Status)
    requires InRange(cfg, s) && Admissible(ev)
    decreases |cfg.suffixes| + 1 - s.next, cfg.ntries - s.attempt, cfg.nserv - s.servi, Unlearnt(cfg, s), |s.wait|
  {
    var e := ev(i, s);
    var o, u := React(cfg, s, e), t + Record(s, e);
    ReactDescends(cfg, s, e);
    if o.Done? then (u, o.status) else
      Learning(cfg, s, o.s);
      Life(cfg, o.s, u + Shown(o), ev, i + 1)
  }

  ghost function Unlearnt(cfg: Config, s: QState): (n: nat)
    requires InRange(cfg, s)
  {
    Few(cfg.nserv, s.noEdns);
    cfg.nserv - |s.noEdns|
  }

  lemma Learning(cfg: Config, s: QState, r: QState)
    requires InRange(cfg, s) && InRange(cfg, r)
    ensures Unlearnt(cfg, s) - Unlearnt(cfg, r) == |r.noEdns| - |s.noEdns|
  {
  }

  /**
   Whatever timeouts and replies happen, a query ends; every answer came from a server that had
   been asked, the status is justified by the answers and the transmissions are bounded.
   */
  lemma {:induction false} LifeIsJustified(cfg: Config, s: QState, t: Trace, ev: (nat, QState) -> Event, i: nat)
    requires Fine(cfg, s, t) && Admissible(ev)
    ensures var (u, status) := Life(cfg, s, t, ev, i); Justified(cfg, u, status)
    decreases |cfg.suffixes| + 1 - s.next, cfg.ntries - s.attempt, cfg.nserv - s.servi, Unlearnt(cfg, s), |s.wait|
  {
    hide Backed, EmptySeen, Current, Transmissions, Answers, Rationed, Asked, PerName, Told, Settled, Send, Reply, AllAsked;
    var e := ev(i, s);
    var o, u := React(cfg, s, e), t + Record(s, e);
    ReactDescends(cfg, s, e);
    if e.Timeout? {
      SendKeeps(cfg, s, t, e.ok);
      EndsJustified(cfg, s, t);
      assert t + [] == t;
    } else {
      ReplyKeeps(cfg, s, t, e.v, e.kind, e.ok);
    }
    if !o.Done? {
      Learning(cfg, s, o.s);
      LifeIsJustified(cfg, o.s, u + Shown(o), ev, i + 1);
    }
  }
}
