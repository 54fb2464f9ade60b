/** The routines of udns_dn.c over buffers. */
module DnCodec {
  import opened Basics
  import opened DomainNames

  /** `dns_dnlen`. */
  method DnLen(dn: bytes, ghost ls: Labels) returns (n: nat)
    requires WellFormed(ls) && Wire(ls) <= dn
    ensures n == |Wire(ls)|
  {
    hide Body;
    var d := 0;
    ghost var k := 0;
    NoBody();
    WireEnd(ls, dn);
    assert ls[..0] == [];
    while dn[d] != 0
      invariant 0 <= k <= |ls| && WellFormed(ls[..k]) && d == |Body(ls[..k])| < |dn|
      decreases |ls| - k
    {
      WireAt(ls, k, dn);
      d := d + 1 + dn[d] as nat;
      k := k + 1;
    }
    if k < |ls| {
      WireAt(ls, k, dn);
    }
    n := d + 1;
  }

  lemma NoBody()
    ensures Body([]) == []
  {
  }

  /** DNS_DNLC. */
  function Lower(b: byte): byte { if 65 <= b <= 90 then b + 32 else b }

  predicate SameLabel(a: bytes, b: bytes) {
    |a| == |b| && forall i | 0 <= i < |a| :: Lower(a[i]) == Lower(b[i])
  }

  /** Equal but for the case of letters. */
  predicate SameName(a: Labels, b: Labels) {
    |a| == |b| && forall k | 0 <= k < |a| :: SameLabel(a[k], b[k])
  }

  /** The inner loop of `dns_dnequal`. */
  method SameBytes(a: bytes, b: bytes, p: nat, c: nat) returns (same: bool)
    requires p + c <= |a| && p + c <= |b|
    ensures same == SameLabel(a[p..p + c], b[p..p + c])
  {
    var i := 0;
    while i < c
      invariant 0 <= i <= c && SameLabel(a[p..p + i], b[p..p + i])
    {
      if Lower(a[p + i]) != Lower(b[p + i]) {
        assert a[p..p + c][i] == a[p + i] && b[p..p + c][i] == b[p + i];
        return false;
      }
      LongerSame(a[p..p + i + 1], b[p..p + i + 1], a[p..p + i], b[p..p + i]);
      i := i + 1;
    }
    return true;
  }

  lemma LongerSame(a: bytes, b: bytes, a0: bytes, b0: bytes)
    requires SameLabel(a0, b0) && |a| == |b| == |a0| + 1 && a0 <= a && b0 <= b && Lower(a[|a0|]) == Lower(b[|b0|])
    ensures SameLabel(a, b)
  {
    forall j | 0 <= j < |a| ensures Lower(a[j]) == Lower(b[j]) {
      assert j < |a0| ==> a[j] == a0[j] && b[j] == b0[j];
    }
  }

  /** `dns_dnequal`. */
  method DnEqual(a: bytes, b: bytes, ghost la: Labels, ghost lb: Labels) returns (r: nat)
    requires WellFormed(la) && Wire(la) <= a && WellFormed(lb) && Wire(lb) <= b
    ensures r == if SameName(la, lb) then |Wire(la)| else 0
  {
    hide Body, SameLabel;
    var p := 0;
    ghost var k := 0;
    NoBody();
    WireEnd(la, a);
    WireEnd(lb, b);
    assert la[..0] == [] && lb[..0] == [];
    while true
      invariant 0 <= k <= |la| && k <= |lb| && WellFormed(la[..k]) && WellFormed(lb[..k])
      invariant p == |Body(la[..k])| == |Body(lb[..k])| && p < |a| && p < |b|
      invariant forall i | 0 <= i < k :: SameLabel(la[i], lb[i])
      decreases |la| - k
    {
      if k < |la| {
        WireAt(la, k, a);
      }
      if k < |lb| {
        WireAt(lb, k, b);
      }
      if a[p] != b[p] {
        Unlike(la, lb, k);
        return 0;
      }
      var c: nat := a[p];
      if c == 0 {
        return p + 1;
      }
      var same := SameBytes(a, b, p + 1, c);
      if !same {
        return 0;
      }
      p := p + 1 + c;
      k := k + 1;
    }
  }

  lemma Unlike(la: Labels, lb: Labels, k: nat)
    requires k <= |la| && k <= |lb|
    requires (if k < |la| then |la[k]| else 0) != (if k < |lb| then |lb[k]| else 0)
    ensures !SameName(la, lb)
  {
  }

  /** The bytes s go to position n. */
  method Emit(buf: array<byte>, n: nat, s: bytes)
    requires n + |s| <= buf.Length
    modifies buf
    ensures buf[..n + |s|] == old(buf[..n]) + s && buf[n + |s|..] == old(buf[n + |s|..])
  {
    for i := 0 to |s|
      invariant buf[..n] == old(buf[..n]) && buf[n..n + i] == s[..i] && buf[n + i..] == old(buf[n + i..])
    {
      buf[n + i] := s[i];
    }
    assert buf[..n + |s|] == buf[..n] + buf[n..n + |s|];
  }

  /** `dns_dntop_size`. */
  method DnTopSize(dn: bytes, ghost ls: Labels) returns (size: nat)
    requires WellFormed(ls) && Wire(ls) <= dn
    ensures size == if |Text(ls)| + 1 > MAXNAME then 0 else |Text(ls)| + 1
  {
    hide Body, Text, Escape, Escaped;
    var d: nat := 0;
    ghost var k := 0;
    size := 0;
    NoBody();
    NoText();
    WireEnd(ls, dn);
    assert ls[..0] == [];
    while dn[d] != 0
      invariant 0 <= k <= |ls| && WellFormed(ls[..k]) && d == |Body(ls[..k])| < |dn|
      invariant size == |Text(ls[..k])| && (k > 0 ==> size > 0)
      decreases |ls| - k
    {
      WireAt(ls, k, dn);
      TextMore(ls, k);
      if size > 0 {
        size := size + 1;
      }
      var le := d + dn[d] as nat + 1;
      d := d + 1;
      ghost var l, j, start, size0 := ls[k], 0, d, size;
      assert l[..0] == [];
      while d < le
        invariant 0 <= j <= |l| && d == start + j && size == size0 + |Escaped(l[..j])|
        invariant j > 0 ==> size > 0
      {
        assert dn[d] == dn[start..le][j];
        EscapedMore(l, j);
        size := size + (if Special(dn[d]) then 2 else if dn[d] <= 0x20 || dn[d] >= 0x7f then 4 else 1);
        assert |Escape(dn[d])| == if Special(dn[d]) then 2 else if dn[d] <= 0x20 || dn[d] >= 0x7f then 4 else 1 by {
          EscapeLength(dn[d]);
        }
        d := d + 1;
        j := j + 1;
      }
      assert l[..j] == l;
      k := k + 1;
    }
    if k < |ls| {
      WireAt(ls, k, dn);
    }
    size := size + 1;
    if size > MAXNAME {
      size := 0;
    }
  }

  lemma NoText()
    ensures Text([]) == [] && Escaped([]) == []
  {
  }

  lemma TextMore(ls: Labels, k: nat)
    requires k < |ls|
    ensures Text(ls[..k + 1]) == Text(ls[..k]) + (if k > 0 then [46] else []) + Escaped(ls[k])
  {
    assert ls[..k + 1][..k] == ls[..k];
  }

  lemma EscapedMore(l: bytes, j: nat)
    requires j < |l|
    ensures Escaped(l[..j + 1]) == Escaped(l[..j]) + Escape(l[j])
  {
    assert l[..j + 1][..j] == l[..j];
  }

  lemma EscapeLength(b: byte)
    ensures |Escape(b)| == if Special(b) then 2 else if b <= 0x20 || b >= 0x7f then 4 else 1
  {
  }

  /** The inner loop of `dns_dntop`: a label, unless it and the terminator cannot fit. */
  method PrintLabel(l: bytes, name: array<byte>, namesiz: nat, start: nat) returns (np: nat, toolong: bool)
    requires start <= namesiz <= name.Length
    modifies name
    ensures toolong ==> start + |Escaped(l)| + 1 > namesiz
    ensures !toolong ==> np == start + |Escaped(l)| <= namesiz && name[..np] == old(name[..start]) + Escaped(l)
    ensures name[namesiz..] == old(name[namesiz..])
  {
    hide Escaped, Escape;
    np, toolong := start, false;
    NoText();
    assert l[..0] == [];
    for j := 0 to |l|
      invariant np == start + |Escaped(l[..j])| <= namesiz && name[..np] == old(name[..start]) + Escaped(l[..j])
      invariant name[namesiz..] == old(name[namesiz..])
    {
      var b := l[j];
      EscapedMore(l, j);
      EscapedPrefix(l, j + 1);
      EscapeLength(b);
      if (if Special(b) then np + 2 > namesiz else if b <= 0x20 || b >= 0x7f then np + 4 >= namesiz else np >= namesiz) {
        toolong := true;
        return;
      }
      EmitWithin(name, np, Escape(b), namesiz);
      np := np + |Escape(b)|;
    }
    assert l[..|l|] == l;
  }

  lemma {:induction false} EscapedPrefix(l: bytes, j: nat)
    requires j <= |l|
    ensures |Escaped(l[..j])| <= |Escaped(l)|
    decreases |l| - j
  {
    if j < |l| {
      EscapedMore(l, j);
      EscapedPrefix(l, j + 1);
    } else {
      assert l[..j] == l;
    }
  }

  lemma {:induction false} TextPrefix(ls: Labels, k: nat)
    requires k <= |ls|
    ensures |Text(ls[..k])| <= |Text(ls)|
    decreases |ls| - k
  {
    if k < |ls| {
      TextMore(ls, k);
      TextPrefix(ls, k + 1);
    } else {
      assert ls[..k] == ls;
    }
  }

  /** As `Emit`, staying inside the first m bytes. */
  method EmitWithin(buf: array<byte>, n: nat, s: bytes, m: nat)
    requires n + |s| <= m <= buf.Length
    modifies buf
    ensures buf[..n + |s|] == old(buf[..n]) + s && buf[m..] == old(buf[m..])
  {
    Emit(buf, n, s);
    assert buf[m..] == buf[n + |s|..][m - n - |s|..];
  }

  /** `dns_dntop`: the text and a zero, exactly when they fit. */
  method DnTop(dn: bytes, name: array<byte>, namesiz: nat, ghost ls: Labels) returns (r: int)
    requires WellFormed(ls) && Wire(ls) <= dn && namesiz <= name.Length
    modifies name
    ensures r > 0 <==> |Text(ls)| + 1 <= namesiz
    ensures r > 0 ==> r == |Text(ls)| + 1 && name[..r] == Text(ls) + [0]
    ensures r <= 0 ==> r == if namesiz >= MAXNAME then -1 else 0
    ensures name[namesiz..] == old(name[namesiz..])
  {
    hide Body, Text, Escaped;
    var d: nat, np: nat := 0, 0;
    ghost var k := 0;
    NoBody();
    NoText();
    WireEnd(ls, dn);
    assert ls[..0] == [];
    while dn[d] != 0
      invariant 0 <= k <= |ls| && WellFormed(ls[..k]) && d == |Body(ls[..k])| < |dn|
      invariant np == |Text(ls[..k])| <= namesiz && name[..np] == Text(ls[..k]) && (k > 0 ==> np > 0)
      invariant name[namesiz..] == old(name[namesiz..])
      decreases |ls| - k
    {
      WireAt(ls, k, dn);
      TextMore(ls, k);
      TextPrefix(ls, k + 1);
      EscapedSize(ls[k]);
      if np != 0 {
        if np >= namesiz {
          return if namesiz >= MAXNAME then -1 else 0;
        }
        EmitWithin(name, np, [46], namesiz);
        np := np + 1;
      }
      var le := d + dn[d] as nat + 1;
      var toolong;
      np, toolong := PrintLabel(dn[d + 1..le], name, namesiz, np);
      if toolong {
        return if namesiz >= MAXNAME then -1 else 0;
      }
      d := le;
      k := k + 1;
    }
    if k < |ls| {
      WireAt(ls, k, dn);
    }
    if np >= namesiz {
      return if namesiz >= MAXNAME then -1 else 0;
    }
    EmitWithin(name, np, [0], namesiz);
    return np + 1;
  }

  /** The value of an escape behind its backslash, as `dns_ptodn` collects it. */
  method Unescape(name: bytes, start: nat) returns (np: nat, c: nat, bad: bool)
    requires start < |name| && name[start] == 92
    ensures bad <==> Item(name[start..]).None?
    ensures !bad ==> c < 256 && start < np <= |name| && Item(name[start..]) == Some((Byte(c), np - start))
  {
    ghost var t := name[start..];
    assert forall i | 0 <= i < |t| :: t[i] == name[start + i];
    np, c, bad := start + 1, 0, false;
    if np == |name| {
      return np, c, true;
    }
    if Digit(name[np]) {
      c := name[np] - 48;
      np := np + 1;
      if np < |name| && Digit(name[np]) {
        c := c * 10 + (name[np] - 48);
        np := np + 1;
        if np < |name| && Digit(name[np]) {
          c := c * 10 + (name[np] - 48);
          np := np + 1;
          bad := c > 255;
        }
      }
    } else {
      c := name[np];
      np := np + 1;
    }
  }

  lemma PlainItem(t: bytes)
    requires t != [] && t[0] != 46 && t[0] != 92
    ensures Item(t) == Some((Byte(t[0]), 1))
  {
  }

  /** The byte at start, plain or escaped, and where the text goes on. */
  method NextItem(name: bytes, start: nat) returns (np: nat, c: nat, bad: bool)
    requires start < |name| && name[start] != 46
    ensures bad <==> Item(name[start..]).None?
    ensures !bad ==> c < 256 && start < np <= |name| && Item(name[start..]) == Some((Byte(c), np - start))
  {
    hide Item;
    if name[start] != 92 {
      np, c, bad := start + 1, name[start], false;
      PlainItem(name[start..]);
    } else {
      np, c, bad := Unescape(name, start);
    }
  }

  /** What the buffer holds while a name is read: whole labels, room for a length, the bytes of the last label. */
  ghost predicate Holds(buf: bytes, done: Labels, last: bytes) {
    && WellFormed(done)
    && |Body(done)| + 1 + |last| <= |buf|
    && buf[..|Body(done)|] == Body(done)
    && buf[|Body(done)| + 1..|Body(done)| + 1 + |last|] == last
  }

  lemma NothingHeld(buf: bytes)
    requires |buf| > 0
    ensures Holds(buf, [], [])
  {
  }

  /** A label is complete: its length goes in front of it. */
  method EndLabel(dn: array<byte>, llab: nat, c: byte, ghost done: Labels, ghost last: bytes)
    requires Holds(dn[..], done, last) && Label(last) && c == |last| && llab == |Body(done)| + 1 && llab + |last| < dn.Length
    modifies dn
    ensures WellFormed(done + [last]) && |Body(done + [last])| == llab + |last| && Holds(dn[..], done + [last], [])
    ensures dn[llab..] == old(dn[llab..])
  {
    BodyMore(done, last);
    ghost var was, p := dn[..], llab - 1;
    dn[llab - 1] := c;
    ghost var buf := dn[..];
    assert buf[..p] == was[..p] && buf[llab..] == was[llab..];
    assert buf[..llab + |last|] == buf[..p] + [buf[p]] + buf[llab..llab + |last|];
    assert buf[llab..llab + |last|] == was[llab..llab + |last|];
  }

  /** One more byte of the label being read. */
  method AddByte(dn: array<byte>, dp: nat, c: byte, ghost done: Labels, ghost last: bytes)
    requires Holds(dn[..], done, last) && dp == |Body(done)| + 1 + |last| < dn.Length
    modifies dn
    ensures Holds(dn[..], done, last + [c]) && dn[dp + 1..] == old(dn[dp + 1..])
  {
    ghost var was, q := dn[..], |Body(done)| + 1;
    dn[dp] := c;
    ghost var buf := dn[..];
    assert buf[..dp] == was[..dp] && buf[q..dp] == was[q..dp];
    assert buf[q..dp + 1] == buf[q..dp] + [c];
    assert buf[..|Body(done)|] == was[..|Body(done)|];
  }

  /** What is unchanged from k on is unchanged from m on. */
  lemma Behind(a: bytes, b: bytes, k: nat, m: nat)
    requires k <= m <= |a| == |b| && a[k..] == b[k..]
    ensures a[m..] == b[m..]
  {
    assert a[m..] == a[k..][m - k..] && b[m..] == b[k..][m - k..];
  }

  /** A byte that finds no room belongs to a name that does not fit. */
  lemma NoRoom(done: Labels, last: bytes, t: bytes)
    requires WellFormed(done) && t != [] && t[0] != 46
    ensures var s := Spelled(done, last, t); s.Some? ==> WellFormed(s.value.0) && |Wire(s.value.0)| >= |Body(done)| + |last| + 3
  {
    if Spelled(done, last, t).Some? {
      var item := Item(t).value;
      SpelledGrows(done, last + [item.0.b], t[item.1..]);
    }
  }

  lemma BadLabel(done: Labels, last: bytes, t: bytes)
    requires t != [] && t[0] == 46 && !Label(last)
    ensures Spelled(done, last, t).None?
  {
  }

  lemma BadItem(done: Labels, last: bytes, t: bytes)
    requires t != [] && Item(t).None?
    ensures Spelled(done, last, t).None?
  {
  }

  ghost predicate Fits(name: bytes, dnsiz: nat) {
    Name(name).Some? && WellFormed(Name(name).value.0) && |Wire(Name(name).value.0)| <= Min(dnsiz, MAXDN)
  }

  function Min(a: nat, b: nat): nat { if a < b then a else b }

  /** The terminator behind the labels, which may be the first byte behind the room m for them. */
  method WriteZero(dn: array<byte>, dp: nat, m: nat)
    requires dp <= m <= dn.Length && dp < dn.Length
    modifies dn
    ensures dn[..dp + 1] == old(dn[..dp]) + [0]
    ensures dp < m ==> dn[m..] == old(dn[m..])
    ensures dp == m ==> dn[m] == 0 && dn[m + 1..] == old(dn[m + 1..])
  {
    dn[dp] := 0;
  }

  lemma HeldFront(buf: bytes, done: Labels, last: bytes)
    requires Holds(buf, done, last)
    ensures WellFormed(done) && |Body(done)| < |buf| && buf[..|Body(done)|] == Body(done)
  {
  }

  /** The last label and the terminator. */
  method EndName(dn: array<byte>, dp: nat, llab: nat, ghost done: Labels, ghost last: bytes) returns (n: nat)
    requires Holds(dn[..], done, last) && |last| <= 63 && llab == |Body(done)| + 1 && dp == llab + |last|
    requires last != [] ==> dp < dn.Length
    modifies dn
    ensures n == if last == [] then llab else dp + 1
    ensures var ls := if last == [] then done else done + [last];
      WellFormed(ls) && 0 < n == |Wire(ls)| <= dn.Length && dn[..n] == Wire(ls) && dn[n..] == old(dn[n..])
  {
    hide Body, Holds, WellFormed;
    HeldFront(dn[..], done, last);
    if dp == llab {
      WriteZero(dn, llab - 1, llab);
      n := dp;
    } else {
      EndLabel(dn, llab, dp - llab, done, last);
      HeldFront(dn[..], done + [last], []);
      Behind(dn[..], old(dn[..]), llab, dp + 1);
      WriteZero(dn, dp, dp + 1);
      n := dp + 1;
    }
  }

  /** Reading the text from np on, with the labels done and part of the next, gives what the whole text spells. */
  ghost predicate Spelling(name: bytes, np: nat, done: Labels, last: bytes) {
    np <= |name| && if name == [46] then done == [] && last == [] else Name(name) == Spelled(done, last, name[np..])
  }

  lemma SpellingStart(name: bytes)
    ensures Spelling(name, 0, [], [])
  {
    assert name[0..] == name;
  }

  /** At the end of the text the name is known. */
  lemma SpellingEnd(name: bytes, done: Labels, last: bytes, dnsiz: nat)
    requires Spelling(name, |name|, done, last) && WellFormed(done)
    ensures if |last| > 63 then !Fits(name, dnsiz)
      else
        var ls := if last == [] then done else done + [last];
        Name(name) == Some((ls, last == [])) && WellFormed(ls) && (Fits(name, dnsiz) <==> |Wire(ls)| <= Min(dnsiz, MAXDN))
  {
    hide Spelled, Body;
    assert name[|name|..] == [];
    Finished(done, last);
  }

  /** A dot ends the label in progress, which must be neither empty nor too long. */
  method TakeDot(name: bytes, np: nat, dn: array<byte>, dnsiz: nat, dp: nat, llab: nat, ghost done: Labels, ghost last: bytes)
    returns (ok: bool)
    requires np < |name| && name[np] == 46 && name != [46] && Spelling(name, np, done, last)
    requires Holds(dn[..], done, last) && llab == |Body(done)| + 1 && dp == llab + |last|
    requires last != [] ==> dp < dnsiz <= dn.Length
    modifies dn
    ensures !ok ==> !Fits(name, dnsiz) && dn[..] == old(dn[..])
    ensures ok ==> WellFormed(done + [last]) && |Body(done + [last])| == dp && Holds(dn[..], done + [last], [])
    ensures ok ==> Spelling(name, np + 1, done + [last], []) && dn[dnsiz..] == old(dn[dnsiz..]) && last != []
  {
    hide Body, Spelled, Holds;
    ghost var t := name[np..];
    var c := dp - llab;
    if c == 0 || c > MAXLABEL {
      BadLabel(done, last, t);
      return false;
    }
    ReadDot(done, last, t);
    assert t[1..] == name[np + 1..];
    EndLabel(dn, llab, c, done, last);
    Behind(dn[..], old(dn[..]), llab, dnsiz);
    ok := true;
  }

  /** Any other byte, escaped or not, goes to the label in progress. */
  method TakeByte(name: bytes, np: nat, dn: array<byte>, dnsiz: nat, dp: nat, ghost done: Labels, ghost last: bytes)
    returns (next: nat, bad: bool, ghost more: bytes)
    requires np < |name| && name[np] != 46 && Spelling(name, np, done, last)
    requires Holds(dn[..], done, last) && dp == |Body(done)| + 1 + |last| < dnsiz <= dn.Length
    modifies dn
    ensures bad ==> !Fits(name, dnsiz) && dn[..] == old(dn[..])
    ensures !bad ==> np < next <= |name| && |more| == |last| + 1 && Spelling(name, next, done, more) && Holds(dn[..], done, more)
    ensures dn[dnsiz..] == old(dn[dnsiz..])
  {
    hide Body, Item, Spelled, Holds;
    ghost var t := name[np..];
    var c;
    next, c, bad := NextItem(name, np);
    more := last;
    if bad {
      BadItem(done, last, t);
      return;
    }
    ReadByte(done, last, t, c, next - np);
    assert t[next - np..] == name[next..];
    AddByte(dn, dp, c, done, last);
    Behind(dn[..], old(dn[..]), dp + 1, dnsiz);
    more := last + [c];
  }

  /** The text of a lone dot is the root. */
  lemma SoleDot(name: bytes, done: Labels, last: bytes)
    requires name == [46] && Spelling(name, 0, done, last)
    ensures Spelling(name, 1, done, last)
  {
  }

  lemma NotSoleDot(name: bytes, np: nat, done: Labels, last: bytes)
    requires np < |name| && Spelling(name, np, done, last) && (last != [] || np > 0 || |name| > 1)
    ensures name != [46]
  {
  }

  lemma NoSpace(name: bytes)
    ensures !Fits(name, 0)
  {
  }

  lemma Overfull(name: bytes, np: nat, done: Labels, last: bytes, dnsiz: nat)
    requires np < |name| && name[np] != 46 && Spelling(name, np, done, last) && WellFormed(done)
    requires |Body(done)| + 2 + |last| >= Min(dnsiz, MAXDN)
    ensures !Fits(name, dnsiz)
  {
    hide Body, Spelled;
    NoRoom(done, last, name[np..]);
  }

  /** `dns_ptodn`: succeeds exactly when the text spells a name that fits, and leaves its wire form. */
  method PtoDn(name: bytes, dn: array<byte>, dnsiz: nat) returns (r: int, isabs: bool)
    requires dnsiz <= dn.Length
    modifies dn
    ensures r > 0 <==> Fits(name, dnsiz)
    ensures r > 0 ==> r == |Wire(Name(name).value.0)| && dn[..r] == Wire(Name(name).value.0) && isabs == Name(name).value.1
    ensures r <= 0 ==> r == 0 || r == -1
    ensures r == 0 ==> dnsiz < MAXDN
    ensures dn[dnsiz..] == old(dn[dnsiz..])
  {
    hide Body, Holds, Spelling, Name, Fits, Wire, WellFormed;
    isabs := false;
    if dnsiz == 0 {
      NoSpace(name);
      return 0, isabs;
    }
    var de: nat := Min(dnsiz, MAXDN) - 1;
    var np: nat, dp: nat, llab: nat := 0, 1, 1;
    ghost var done: Labels, last: bytes := [], [];
    NoBody();
    NothingHeld(dn[..]);
    SpellingStart(name);
    while np < |name|
      invariant np <= |name| && Spelling(name, np, done, last)
      invariant Holds(dn[..], done, last) && WellFormed(done) && llab == |Body(done)| + 1 && dp == llab + |last|
      invariant llab <= de + 1 && (last != [] ==> dp <= de)
      invariant dn[dnsiz..] == old(dn[dnsiz..])
    {
      if name[np] == 46 {
        if dp == llab && np == 0 && np + 1 == |name| {
          SoleDot(name, done, last);
          np := np + 1;
          break;
        }
        NotSoleDot(name, np, done, last);
        var ok := TakeDot(name, np, dn, dnsiz, dp, llab, done, last);
        if !ok {
          return -1, isabs;
        }
        done, last := done + [last], [];
        dp := dp + 1;
        llab := dp;
        np := np + 1;
      } else {
        if dp >= de {
          Overfull(name, np, done, last, dnsiz);
          return if dnsiz >= MAXDN then -1 else 0, isabs;
        }
        var bad;
        np, bad, last := TakeByte(name, np, dn, dnsiz, dp, done, last);
        if bad {
          return -1, isabs;
        }
        dp := dp + 1;
      }
    }
    SpellingEnd(name, done, last, dnsiz);
    var c := dp - llab;
    if c > MAXLABEL {
      return -1, isabs;
    }
    isabs := c == 0;
    ghost var was := dn[..];
    r := EndName(dn, dp, llab, done, last);
    Behind(dn[..], was, r, dnsiz);
  }

  lemma Finished(done: Labels, last: bytes)
    ensures Spelled(done, last, []) ==
      if |last| > 63 then None else if last == [] then Some((done, true)) else Some((done + [last], false))
  {
  }

  /** Printing a name of at most 255 bytes into a buffer of DNS_MAXNAME and reading the text gives the name back. */
  method PrintAndRead(dn: bytes, name: array<byte>, out: array<byte>, ghost ls: Labels) returns (r: int, isabs: bool)
    requires WellFormed(ls) && Wire(ls) <= dn && |Wire(ls)| <= MAXDN
    requires name.Length == MAXNAME && out.Length == MAXDN && name != out
    modifies name, out
    ensures r == |Wire(ls)| && out[..r] == Wire(ls) && isabs == (ls == [])
  {
    hide Body, Name;
    TextBound(ls);
    TextRoundTrip(ls);
    var n := DnTop(dn, name, MAXNAME, ls);
    assert name[..n - 1] == name[..n][..n - 1] == Text(ls);
    r, isabs := PtoDn(name[..n - 1], out, MAXDN);
  }
}
