/** Names inside a DNS packet, compressed as section 4.1.4 of RFC 1035 describes. */
module Packet {
  import opened Basics
  import opened DomainNames
  import opened DnCodec

  const HSIZE: nat := 12

  /** Where a pointer leads: the low six bits of its first byte and all of its second. */
  function Target(c: byte, d: byte): nat { (c % 64) as nat * 256 + d as nat }

  /**
   The labels found from position pos on, following at most `jumps` pointers, none of them into
   the header; None if that runs out of the packet or of jumps.
   */
  function Walk(pkt: bytes, pos: nat, jumps: nat): Option<Labels>
    decreases jumps, |pkt| - pos
  {
    if pos >= |pkt| then None
    else if pkt[pos] == 0 then Some([])
    else if pkt[pos] >= 64 then
      if pos + 1 >= |pkt| || jumps == 0 || Target(pkt[pos], pkt[pos + 1]) < HSIZE then None
      else Walk(pkt, Target(pkt[pos], pkt[pos + 1]), jumps - 1)
    else
      var next := pos + 1 + pkt[pos] as nat;
      if next > |pkt| then None
      else
        var rest := Walk(pkt, next, jumps);
        if rest.None? then None else Some([pkt[pos + 1..next]] + rest.value)
  }

  /** What is found is always a well-formed name. */
  lemma {:induction false} WalkFinds(pkt: bytes, pos: nat, jumps: nat)
    requires Walk(pkt, pos, jumps).Some?
    ensures WellFormed(Walk(pkt, pos, jumps).value)
    decreases jumps, |pkt| - pos
  {
    if pkt[pos] == 0 {
    } else if pkt[pos] >= 64 {
      WalkFinds(pkt, Target(pkt[pos], pkt[pos + 1]), jumps - 1);
    } else {
      WalkFinds(pkt, pos + 1 + pkt[pos] as nat, jumps);
    }
  }

  /** More jumps find the same. */
  lemma {:induction false} WalkMore(pkt: bytes, pos: nat, jumps: nat, more: nat)
    requires Walk(pkt, pos, jumps).Some? && jumps <= more
    ensures Walk(pkt, pos, more) == Walk(pkt, pos, jumps)
    decreases jumps, |pkt| - pos
  {
    if pkt[pos] == 0 {
    } else if pkt[pos] >= 64 {
      WalkMore(pkt, Target(pkt[pos], pkt[pos + 1]), jumps - 1, more - 1);
    } else {
      WalkMore(pkt, pos + 1 + pkt[pos] as nat, jumps, more);
    }
  }

  /** Labels written out at pos are found there, in front of what follows them. */
  lemma {:induction false} WalkBody(pkt: bytes, pos: nat, ls: Labels, jumps: nat)
    requires WellFormed(ls) && pos + |Body(ls)| <= |pkt| && pkt[pos..pos + |Body(ls)|] == Body(ls)
    ensures Walk(pkt, pos, jumps) == Prefixed(ls, Walk(pkt, pos + |Body(ls)|, jumps))
    decreases |ls|
  {
    hide Body, Walk;
    if ls == [] {
      NoBody();
      assert forall m: Labels :: [] + m == m;
    } else {
      var l, more := ls[0], ls[1..];
      BodyFront(ls);
      Located(pkt, pos, |l|, l, Body(more));
      var next := pos + 1 + |l|;
      WalkLabel(pkt, pos, l, jumps);
      WalkBody(pkt, next, more, jumps);
      var rest := Walk(pkt, pos + |Body(ls)|, jumps);
      if rest.Some? {
        assert [l] + (more + rest.value) == ls + rest.value;
      }
    }
  }

  lemma BodyFront(ls: Labels)
    requires WellFormed(ls) && ls != []
    ensures Label(ls[0]) && WellFormed(ls[1..]) && Body(ls) == [|ls[0]|] + ls[0] + Body(ls[1..])
  {
    hide Body;
    var l, more := ls[0], ls[1..];
    assert l in ls && ls == [l] + more;
    BodyAppend([l], more);
    OneLabelBody(l);
  }

  lemma OneLabelBody(l: bytes)
    requires Label(l)
    ensures WellFormed([l]) && Body([l]) == [|l|] + l
  {
    BodyMore([], l);
    assert [] + [l] == [l];
  }

  lemma Located(pkt: bytes, pos: nat, c: byte, l: bytes, m: bytes)
    requires var b := [c] + l + m; pos + |b| <= |pkt| && pkt[pos..pos + |b|] == b
    ensures var next := pos + 1 + |l|; pkt[pos] == c && pkt[pos + 1..next] == l && pkt[next..next + |m|] == m
  {
    var b, next := [c] + l + m, pos + 1 + |l|;
    var s := pkt[pos..pos + |b|];
    assert pkt[pos] == s[0] == b[0];
    forall i | 0 <= i < |l| ensures pkt[pos + 1 + i] == l[i] {
      assert s[1 + i] == b[1 + i];
    }
    forall i | 0 <= i < |m| ensures pkt[next + i] == m[i] {
      assert s[1 + |l| + i] == b[1 + |l| + i];
    }
  }

  lemma WalkLabel(pkt: bytes, pos: nat, l: bytes, jumps: nat)
    requires Label(l) && pos + 1 + |l| <= |pkt| && pkt[pos] == |l| && pkt[pos + 1..pos + 1 + |l|] == l
    ensures Walk(pkt, pos, jumps) == Prefixed([l], Walk(pkt, pos + 1 + |l|, jumps))
  {
  }

  lemma WalkEnds(pkt: bytes, pos: nat, jumps: nat)
    ensures pos >= |pkt| ==> Walk(pkt, pos, jumps).None?
    ensures pos < |pkt| && pkt[pos] == 0 ==> Walk(pkt, pos, jumps) == Some([])
    ensures pos < |pkt| && 0 < pkt[pos] < 64 && pos + 1 + pkt[pos] as nat > |pkt| ==> Walk(pkt, pos, jumps).None?
  {
  }

  lemma WalkJump(pkt: bytes, pos: nat, jumps: nat)
    requires pos < |pkt| && pkt[pos] >= 64
    ensures Walk(pkt, pos, jumps) ==
      if pos + 1 >= |pkt| || jumps == 0 || Target(pkt[pos], pkt[pos + 1]) < HSIZE then None
      else Walk(pkt, Target(pkt[pos], pkt[pos + 1]), jumps - 1)
  {
  }

  /** Labels in front of what was found. */
  function Prefixed(done: Labels, rest: Option<Labels>): Option<Labels> {
    if rest.None? then None else Some(done + rest.value)
  }

  lemma PrefixedMore(done: Labels, l: bytes, rest: Option<Labels>)
    ensures Prefixed(done, Prefixed([l], rest)) == Prefixed(done + [l], rest)
  {
    if rest.Some? {
      assert done + ([l] + rest.value) == done + [l] + rest.value;
    }
  }

  /** A name that starts with these labels is at least as long as they are. */
  lemma PrefixedLength(done: Labels, rest: Option<Labels>)
    requires WellFormed(done) && rest.Some? && WellFormed(done + rest.value)
    ensures |Body(done + rest.value)| >= |Body(done)|
  {
    forall l | l in rest.value ensures Label(l) {
      assert l in done + rest.value;
    }
    BodyAppend(done, rest.value);
  }

  /** A name written out without pointers is found as it is. */
  lemma WalkWire(pkt: bytes, pos: nat, ls: Labels, jumps: nat)
    requires WellFormed(ls) && pos + |Wire(ls)| <= |pkt| && pkt[pos..pos + |Wire(ls)|] == Wire(ls)
    ensures Walk(pkt, pos, jumps) == Some(ls)
  {
    var n := |Body(ls)|;
    assert pkt[pos..pos + n] == Wire(ls)[..n] == Body(ls);
    assert pkt[pos + n] == Wire(ls)[n] == 0;
    WalkBody(pkt, pos, ls, jumps);
    assert ls + [] == ls;
  }

  /** Compression: labels followed by a pointer to a name are those labels and that name, one jump further away. */
  lemma WalkCompressed(pkt: bytes, pos: nat, ls: Labels, suffix: Labels, at: nat, jumps: nat)
    requires WellFormed(ls) && HSIZE <= at < 0x4000 && Walk(pkt, at, jumps) == Some(suffix)
    requires pos + |Body(ls)| + 2 <= |pkt| && pkt[pos..pos + |Body(ls)|] == Body(ls)
    requires pkt[pos + |Body(ls)|] == 192 + at / 256 && pkt[pos + |Body(ls)| + 1] == at % 256
    ensures Walk(pkt, pos, jumps + 1) == Some(ls + suffix)
  {
    var p := pos + |Body(ls)|;
    assert Target(pkt[p], pkt[p + 1]) == at;
    WalkBody(pkt, pos, ls, jumps + 1);
  }

  /** A name whose pointer leads back to its own start is found by no number of jumps. */
  lemma {:induction false} WalkCycle(pkt: bytes, pos: nat, ls: Labels, jumps: nat)
    requires WellFormed(ls) && pos < 0x4000
    requires pos + |Body(ls)| + 2 <= |pkt| && pkt[pos..pos + |Body(ls)|] == Body(ls)
    requires pkt[pos + |Body(ls)|] == 192 + pos / 256 && pkt[pos + |Body(ls)| + 1] == pos % 256
    ensures Walk(pkt, pos, jumps).None?
  {
    var p := pos + |Body(ls)|;
    assert Target(pkt[p], pkt[p + 1]) == pos;
    WalkBody(pkt, pos, ls, jumps);
    WalkJump(pkt, p, jumps);
    if jumps > 0 {
      WalkCycle(pkt, pos, ls, jumps - 1);
    }
  }

  /** `dns_skipdn`. */
  method SkipDn(pkt: bytes, start: nat) returns (next: Option<nat>)
    ensures next == Skipped(pkt, start)
  {
    var cur := start;
    while true
      invariant Skipped(pkt, cur) == Skipped(pkt, start)
      decreases |pkt| - cur
    {
      if cur >= |pkt| {
        return None;
      }
      var c := pkt[cur] as nat;
      cur := cur + 1;
      if c == 0 {
        return Some(cur);
      }
      if c >= 64 {
        return if cur + 1 >= |pkt| then None else Some(cur + 1);
      }
      cur := cur + c;
    }
  }

  /** Behind the terminator or the first pointer; a pointer at the very end of the packet is not skipped. */
  function Skipped(pkt: bytes, pos: nat): Option<nat> {
    var end := NameEnd(pkt, pos);
    if end.None? || (end.value == |pkt| && EndsInPointer(pkt, pos)) then None else end
  }

  /** The position behind a name's own bytes. */
  function NameEnd(pkt: bytes, pos: nat): (r: Option<nat>)
    ensures r.Some? ==> pos < r.value <= |pkt|
    decreases |pkt| - pos
  {
    if pos >= |pkt| then None
    else if pkt[pos] == 0 then Some(pos + 1)
    else if pkt[pos] >= 64 then if pos + 2 <= |pkt| then Some(pos + 2) else None
    else NameEnd(pkt, pos + 1 + pkt[pos] as nat)
  }

  predicate EndsInPointer(pkt: bytes, pos: nat)
    decreases |pkt| - pos
  {
    pos < |pkt| && pkt[pos] != 0 && (pkt[pos] >= 64 || EndsInPointer(pkt, pos + 1 + pkt[pos] as nat))
  }

  /** How many pointers `dns_getdn` follows. */
  const JUMPS: nat := 100

  /** The pointers lead to a name whose labels fit the destination. */
  ghost predicate Found(pkt: bytes, start: nat, dnsiz: nat) {
    var name := Walk(pkt, start, JUMPS);
    name.Some? && WellFormed(name.value) && |Body(name.value)| <= Min(dnsiz, MAXDN)
  }

  /** The labels fill the destination, so that their terminator finds no room in it. */
  ghost predicate Overruns(pkt: bytes, start: nat, dnsiz: nat) {
    dnsiz > 0 && Found(pkt, start, dnsiz) && |Body(Walk(pkt, start, JUMPS).value)| == Min(dnsiz, MAXDN)
  }

  lemma FoundFits(pkt: bytes, start: nat, dnsiz: nat, done: Labels)
    requires WellFormed(done) && Walk(pkt, start, JUMPS) == Some(done) && dnsiz > 0 && |Body(done)| <= Min(dnsiz, MAXDN)
    ensures Overruns(pkt, start, dnsiz) <==> |Body(done)| == Min(dnsiz, MAXDN)
  {
  }

  lemma OverrunsFound(pkt: bytes, start: nat, dnsiz: nat)
    ensures Overruns(pkt, start, dnsiz) ==> dnsiz > 0 && Found(pkt, start, dnsiz)
  {
  }

  /** The end of `dns_getdn` at the empty label. */
  method Terminate(pkt: bytes, start: nat, dn: array<byte>, dnsiz: nat, dp: nat, ghost done: Labels) returns (r: nat)
    requires WellFormed(done) && Walk(pkt, start, JUMPS) == Some(done) && dnsiz > 0
    requires dp == |Body(done)| <= Min(dnsiz, MAXDN) <= dn.Length && dn[..dp] == Body(done)
    requires Overruns(pkt, start, dnsiz) ==> Min(dnsiz, MAXDN) < dn.Length
    modifies dn
    ensures r == dp + 1 == |Wire(done)| <= dn.Length && dn[..r] == Wire(done)
    ensures r > Min(dnsiz, MAXDN) <==> Overruns(pkt, start, dnsiz)
    ensures !Overruns(pkt, start, dnsiz) ==> dn[Min(dnsiz, MAXDN)..] == old(dn[Min(dnsiz, MAXDN)..])
    ensures Overruns(pkt, start, dnsiz) ==> dn[Min(dnsiz, MAXDN)] == 0 && dn[Min(dnsiz, MAXDN) + 1..] == old(dn[Min(dnsiz, MAXDN) + 1..])
  {
    FoundFits(pkt, start, dnsiz, done);
    hide Body, Walk, WellFormed, Found, Overruns;
    WriteZero(dn, dp, Min(dnsiz, MAXDN));
    r := dp + 1;
  }

  /** A label with its length, copied from position p of the packet to position dp within the first m bytes. */
  method CopyLabel(pkt: bytes, p: nat, c: nat, dn: array<byte>, dp: nat, m: nat, ghost done: Labels)
    requires p + 1 + c <= |pkt| && pkt[p] == c && 1 <= c <= 63 && dp + 1 + c <= m <= dn.Length
    requires WellFormed(done) && dp == |Body(done)| && dn[..dp] == Body(done)
    modifies dn
    ensures WellFormed(done + [pkt[p + 1..p + 1 + c]]) && |Body(done + [pkt[p + 1..p + 1 + c]])| == dp + 1 + c
    ensures dn[..dp + 1 + c] == Body(done + [pkt[p + 1..p + 1 + c]]) && dn[m..] == old(dn[m..])
  {
    hide Body, WellFormed;
    var x := pkt[p..p + 1 + c];
    BodyMore(done, pkt[p + 1..p + 1 + c]);
    EmitWithin(dn, dp, x, m);
    LabelBytes(pkt, p, c, dn[..dp + 1 + c], Body(done));
  }

  lemma LabelBytes(pkt: bytes, p: nat, c: nat, all: bytes, front: bytes)
    requires p + 1 + c <= |pkt| && c < 256 && pkt[p] == c && all == front + pkt[p..p + 1 + c]
    ensures all == front + [c] + pkt[p + 1..p + 1 + c]
  {
    assert pkt[p..p + 1 + c] == [pkt[p]] + pkt[p + 1..p + 1 + c];
  }

  function Filled(n: nat): (l: bytes)
    ensures |l| == n
  {
    seq(n, _ => 97)
  }

  /** A name of labels of 63, 63, 63 and 62 bytes, written behind the header, overruns a destination of 255 bytes. */
  lemma OverrunHappens()
    ensures var ls := [Filled(63), Filled(63), Filled(63), Filled(62)];
      && WellFormed(ls) && |Body(ls)| == MAXDN
      && Overruns(seq(HSIZE, _ => 0) + Wire(ls), HSIZE, MAXDN)
  {
    var ls := [Filled(63), Filled(63), Filled(63), Filled(62)];
    FourLabels(Filled(63), Filled(63), Filled(63), Filled(62));
    hide Body, WellFormed, Filled, Walk;
    WireBehind(seq(HSIZE, _ => 0), ls);
  }

  lemma OneLabel(a: bytes)
    requires Label(a)
    ensures WellFormed([a]) && |Body([a])| == 1 + |a|
  {
    BodyMore([], a);
    assert [] + [a] == [a];
  }

  lemma FourLabels(a: bytes, b: bytes, c: bytes, d: bytes)
    requires Label(a) && Label(b) && Label(c) && Label(d)
    ensures var ls := [a, b, c, d]; WellFormed(ls) && |Body(ls)| == 4 + |a| + |b| + |c| + |d|
  {
    hide Body, WellFormed;
    OneLabel(a);
    BodyMore([a], b);
    BodyMore([a] + [b], c);
    BodyMore([a] + [b] + [c], d);
    assert [a] + [b] + [c] + [d] == [a, b, c, d];
  }

  /** A name written out behind anything is found there. */
  lemma WireBehind(head: bytes, ls: Labels)
    requires WellFormed(ls)
    ensures Walk(head + Wire(ls), |head|, JUMPS) == Some(ls)
  {
    hide Body, WellFormed, Walk;
    var pkt := head + Wire(ls);
    assert pkt[|head|..|head| + |Wire(ls)|] == Wire(ls);
    WalkWire(pkt, |head|, ls, JUMPS);
  }

  lemma FoundAll(pkt: bytes, start: nat, dnsiz: nat, done: Labels)
    requires WellFormed(done) && Prefixed(done, Some([])) == Walk(pkt, start, JUMPS)
    ensures Walk(pkt, start, JUMPS) == Some(done) && (Found(pkt, start, dnsiz) <==> |Body(done)| <= Min(dnsiz, MAXDN))
  {
    assert done + [] == done;
  }

  lemma FoundNothing(pkt: bytes, start: nat, dnsiz: nat, done: Labels, rest: Option<Labels>)
    requires Prefixed(done, rest) == Walk(pkt, start, JUMPS)
    ensures rest.None? ==> !Found(pkt, start, dnsiz)
  {
  }

  lemma FoundMore(pkt: bytes, start: nat, dnsiz: nat, done: Labels, rest: Option<Labels>)
    requires WellFormed(done) && Prefixed(done, rest) == Walk(pkt, start, JUMPS)
    ensures Found(pkt, start, dnsiz) ==> |Body(done)| <= Min(dnsiz, MAXDN)
  {
    if Found(pkt, start, dnsiz) {
      PrefixedLength(done, rest);
    }
  }

  lemma PrefixedNone(rest: Option<Labels>)
    ensures Prefixed([], rest) == rest && WellFormed([])
  {
    if rest.Some? {
      assert [] + rest.value == rest.value;
    }
  }

  lemma EndStep(pkt: bytes, pos: nat)
    requires pos < |pkt|
    ensures NameEnd(pkt, pos) ==
      if pkt[pos] == 0 then Some(pos + 1)
      else if pkt[pos] >= 64 then if pos + 2 <= |pkt| then Some(pos + 2) else None
      else NameEnd(pkt, pos + 1 + pkt[pos] as nat)
  {
  }

  /** The end of the name's own bytes is known once a pointer was followed; `loop` counts the pointers still allowed. */
  ghost predicate Tracked(pkt: bytes, start: nat, pos: nat, jump: Option<nat>, loop: nat, jumps: nat) {
    if jump.None? then jumps == JUMPS == loop && NameEnd(pkt, pos) == NameEnd(pkt, start)
    else 0 < loop == jumps + 1 && jump == NameEnd(pkt, start)
  }

  lemma TrackedStart(pkt: bytes, start: nat)
    ensures Tracked(pkt, start, start, None, JUMPS, JUMPS)
  {
  }

  lemma TrackedStep(pkt: bytes, start: nat, pos: nat, jump: Option<nat>, loop: nat, jumps: nat)
    requires pos < |pkt| && Tracked(pkt, start, pos, jump, loop, jumps)
    ensures pkt[pos] == 0 ==> NameEnd(pkt, start) == if jump.Some? then jump else Some(pos + 1)
    ensures 0 < pkt[pos] < 64 ==> Tracked(pkt, start, pos + 1 + pkt[pos] as nat, jump, loop, jumps)
  {
    hide NameEnd;
    EndStep(pkt, pos);
  }

  /** A compression pointer: on to where it leads, unless it is cut off, leads into the header or is one too many. */
  method Follow(pkt: bytes, pos: nat, jump: Option<nat>, loop: nat, ghost start: nat, ghost jumps: nat)
    returns (ok: bool, target: nat, first: Option<nat>, left: nat)
    requires pos < |pkt| && pkt[pos] >= 64 && Tracked(pkt, start, pos, jump, loop, jumps)
    ensures !ok ==> Walk(pkt, pos, jumps).None?
    ensures ok ==> jumps > 0 && Walk(pkt, pos, jumps) == Walk(pkt, target, jumps - 1)
    ensures ok ==> Tracked(pkt, start, target, first, left, jumps - 1)
  {
    hide Walk, NameEnd;
    WalkJump(pkt, pos, jumps);
    EndStep(pkt, pos);
    ok, target, first, left := false, 0, jump, loop;
    if pos + 1 >= |pkt| {
      return;
    }
    if jump.None? {
      first := Some(pos + 2);
    } else {
      left := left - 1;
      if left == 0 {
        return;
      }
    }
    target := Target(pkt[pos], pkt[pos + 1]);
    ok := target >= HSIZE;
  }

  /**
   `dns_getdn`: succeeds exactly when the labels the pointers lead to fit, spells them out and
   stops behind the name's own bytes.  The array is the memory from the destination on: nothing
   behind the destination is written, except the terminator of a name whose labels fill it.
   */
  method GetDn(pkt: bytes, start: nat, dn: array<byte>, dnsiz: nat) returns (r: int, cur: nat)
    requires Min(dnsiz, MAXDN) <= dn.Length && (Overruns(pkt, start, dnsiz) ==> Min(dnsiz, MAXDN) < dn.Length)
    modifies dn
    ensures r > Min(dnsiz, MAXDN) <==> Overruns(pkt, start, dnsiz)
    ensures !Overruns(pkt, start, dnsiz) ==> dn[Min(dnsiz, MAXDN)..] == old(dn[Min(dnsiz, MAXDN)..])
    ensures Overruns(pkt, start, dnsiz) ==> dn[Min(dnsiz, MAXDN)] == 0 && dn[Min(dnsiz, MAXDN) + 1..] == old(dn[Min(dnsiz, MAXDN) + 1..])
    ensures r > 0 <==> dnsiz > 0 && Found(pkt, start, dnsiz)
    ensures r > 0 ==> r == |Wire(Walk(pkt, start, JUMPS).value)| && dn[..r] == Wire(Walk(pkt, start, JUMPS).value)
    ensures r > 0 ==> NameEnd(pkt, start) == Some(cur)
    ensures r <= 0 ==> (r == 0 || r == -1) && cur == start && (r == 0 ==> dnsiz < MAXDN)
  {
    hide Body, Walk, NameEnd, Prefixed, WellFormed, Found, Overruns, Wire, Tracked;
    var de := Min(dnsiz, MAXDN);
    OverrunsFound(pkt, start, dnsiz);
    var pp: nat, dp: nat, loop: nat := start, 0, 100;
    var jump: Option<nat> := None;
    ghost var done: Labels := [];
    ghost var jumps: nat := JUMPS;
    NoBody();
    PrefixedNone(Walk(pkt, start, JUMPS));
    TrackedStart(pkt, start);
    cur := start;
    while true
      invariant WellFormed(done) && dp == |Body(done)| <= de && dn[..dp] == Body(done)
      invariant dn[de..] == old(dn[de..])
      invariant Prefixed(done, Walk(pkt, pp, jumps)) == Walk(pkt, start, JUMPS)
      invariant Tracked(pkt, start, pp, jump, loop, jumps)
      decreases jumps, |pkt| - pp
    {
      WalkEnds(pkt, pp, jumps);
      FoundNothing(pkt, start, dnsiz, done, Walk(pkt, pp, jumps));
      if pp >= |pkt| {
        return -1, cur;
      }
      TrackedStep(pkt, start, pp, jump, loop, jumps);
      var c := pkt[pp] as nat;
      pp := pp + 1;
      if c == 0 {
        FoundAll(pkt, start, dnsiz, done);
        if 0 >= de {
          return if dnsiz < MAXDN then 0 else -1, cur;
        }
        r := Terminate(pkt, start, dn, dnsiz, dp, done);
        cur := if jump.Some? then jump.value else pp;
        return;
      }
      if c >= 64 {
        var ok;
        ok, pp, jump, loop := Follow(pkt, pp - 1, jump, loop, start, jumps);
        if !ok {
          return -1, cur;
        }
        jumps := jumps - 1;
        continue;
      }
      if pp + c > |pkt| {
        return -1, cur;
      }
      ghost var l := pkt[pp..pp + c];
      WalkLabel(pkt, pp - 1, l, jumps);
      PrefixedMore(done, l, Walk(pkt, pp + c, jumps));
      if dp + c + 1 > de {
        BodyMore(done, l);
        FoundMore(pkt, start, dnsiz, done + [l], Walk(pkt, pp + c, jumps));
        return if dnsiz < MAXDN then 0 else -1, cur;
      }
      CopyLabel(pkt, pp - 1, c, dn, dp, de, done);
      done := done + [l];
      dp := dp + 1 + c;
      pp := pp + c;
    }
  }

}
