/**
 Domain names: the wire form of sections 2.3.4 and 3.1 of RFC 1035 and the text form of its section
 5.1, with a backslash and a decimal number for bytes that are not plain.
 */
module DomainNames {
  import opened Basics

  type Labels = seq<bytes>

  const MAXDN: nat := 255
  const MAXLABEL: nat := 63
  const MAXNAME: nat := 1024

  predicate Label(l: bytes) { 1 <= |l| <= 63 }

  predicate WellFormed(ls: Labels) { forall l | l in ls :: Label(l) }

  // ---------------------------------------------------------------- the wire form

  /** Every label behind its length, without the terminating zero. */
  function Body(ls: Labels): (r: bytes)
    requires WellFormed(ls)
  {
    if ls == [] then []
    else
      var l := ls[|ls| - 1];
      assert l in ls;
      Body(ls[..|ls| - 1]) + [|l|] + l
  }

  function Wire(ls: Labels): bytes
    requires WellFormed(ls)
  {
    Body(ls) + [0]
  }

  lemma BodyMore(ls: Labels, l: bytes)
    requires WellFormed(ls) && Label(l)
    ensures WellFormed(ls + [l]) && Body(ls + [l]) == Body(ls) + [|l|] + l
  {
    assert (ls + [l])[..|ls|] == ls;
  }

  lemma {:induction false} BodyAppend(a: Labels, b: Labels)
    requires WellFormed(a) && WellFormed(b)
    ensures WellFormed(a + b) && Body(a + b) == Body(a) + Body(b)
  {
    if b == [] {
      assert a + b == a;
    } else {
      var n, l := |b| - 1, b[|b| - 1];
      assert l in b;
      assert a + b == (a + b[..n]) + [l] && b == b[..n] + [l];
      BodyAppend(a, b[..n]);
      BodyMore(a + b[..n], l);
      BodyMore(b[..n], l);
    }
  }

  /** Where label k stands in the wire form. */
  lemma WireAt(ls: Labels, k: nat, dn: bytes)
    requires WellFormed(ls) && Wire(ls) <= dn && k < |ls|
    ensures WellFormed(ls[..k]) && WellFormed(ls[..k + 1]) && Label(ls[k])
    ensures var p := |Body(ls[..k])|;
      && |Body(ls[..k + 1])| == p + 1 + |ls[k]| < |dn| && p + 1 + |ls[k]| <= |Body(ls)|
      && dn[p] == |ls[k]| && dn[p + 1..p + 1 + |ls[k]|] == ls[k]
  {
    hide Body;
    var a, l, b := ls[..k], ls[k], ls[k + 1..];
    assert ls[..k + 1] == a + [l] && ls == (a + [l]) + b && l in ls;
    BodyMore(a, l);
    BodyAppend(a + [l], b);
    Inside(Body(a), |l|, l, Body(b), dn);
  }

  lemma Inside(a: bytes, c: byte, l: bytes, b: bytes, dn: bytes)
    requires a + [c] + l + b <= dn
    ensures |a| + 1 + |l| <= |dn| && dn[|a|] == c && dn[|a| + 1..|a| + 1 + |l|] == l
  {
    assert dn[|a|] == (a + [c] + l + b)[|a|];
    forall i | 0 <= i < |l| ensures dn[|a| + 1 + i] == l[i] {
      assert dn[|a| + 1 + i] == (a + [c] + l + b)[|a| + 1 + i];
    }
  }

  lemma WireEnd(ls: Labels, dn: bytes)
    requires WellFormed(ls) && Wire(ls) <= dn
    ensures ls[..|ls|] == ls && |Body(ls)| < |dn| && dn[|Body(ls)|] == 0
  {
  }

  // ---------------------------------------------------------------- the text form

  /** Full stop, backslash, double quote, semicolon, at sign, dollar. */
  predicate Special(b: byte) { b == 46 || b == 92 || b == 34 || b == 59 || b == 64 || b == 36 }

  function Escape(b: byte): (r: bytes)
    ensures 1 <= |r| <= 4
  {
    if Special(b) then [92, b]
    else if b <= 0x20 || b >= 0x7f then [92, 48 + b / 100, 48 + b % 100 / 10, 48 + b % 10]
    else [b]
  }

  function Escaped(l: bytes): bytes {
    if l == [] then [] else Escaped(l[..|l| - 1]) + Escape(l[|l| - 1])
  }

  /** What `dns_dntop` prints, without the terminating zero. */
  function Text(ls: Labels): bytes {
    if ls == [] then []
    else Text(ls[..|ls| - 1]) + (if |ls| > 1 then [46] else []) + Escaped(ls[|ls| - 1])
  }

  predicate Digit(b: byte) { 48 <= b <= 57 }

  datatype Token = Dot | Byte(b: byte)

  /** One token at the front of a text and its length. */
  function Item(t: bytes): (r: Option<(Token, nat)>)
    requires t != []
    ensures r.Some? ==> 1 <= r.value.1 <= |t|
  {
    if t[0] == 46 then Some((Dot, 1))
    else if t[0] != 92 then Some((Byte(t[0]), 1))
    else if |t| == 1 then None
    else if !Digit(t[1]) then Some((Byte(t[1]), 2))
    else if |t| == 2 || !Digit(t[2]) then Some((Byte(t[1] - 48), 2))
    else if |t| == 3 || !Digit(t[3]) then Some((Byte(10 * (t[1] - 48) + (t[2] - 48)), 3))
    else
      var v: int := 100 * (t[1] as int - 48) + 10 * (t[2] as int - 48) + (t[3] as int - 48);
      if v > 255 then None else Some((Byte(v), 4))
  }

  /** The name a text spells and whether it is absolute, given the labels read so far. */
  function Spelled(done: Labels, last: bytes, t: bytes): (r: Option<(Labels, bool)>)
    decreases |t|
  {
    if t == [] then
      if |last| > 63 then None
      else if last == [] then Some((done, true))
      else Some((done + [last], false))
    else
      var item := Item(t);
      if item.None? then None
      else if item.value.0.Byte? then Spelled(done, last + [item.value.0.b], t[item.value.1..])
      else if Label(last) then Spelled(done + [last], [], t[1..])
      else None
  }

  /** A single full stop is the root. */
  function Name(t: bytes): Option<(Labels, bool)> {
    if t == [46] then Some(([], true)) else Spelled([], [], t)
  }

  /** Any text that spells a name spells a well-formed one, which holds what was read before. */
  lemma {:induction false} SpelledGrows(done: Labels, last: bytes, t: bytes)
    requires WellFormed(done) && Spelled(done, last, t).Some?
    ensures var ls := Spelled(done, last, t).value.0;
      && WellFormed(ls) && |Body(ls)| >= |Body(done)| + (if last == [] then 0 else 1 + |last|)
    decreases |t|
  {
    if t == [] {
      if last != [] {
        BodyMore(done, last);
      }
    } else {
      var item := Item(t).value;
      if item.0.Byte? {
        SpelledGrows(done, last + [item.0.b], t[item.1..]);
      } else {
        BodyMore(done, last);
        SpelledGrows(done + [last], [], t[1..]);
      }
    }
  }

  // ---------------------------------------------------------------- reading back what was printed

  lemma DecimalDigits(b: byte)
    ensures 100 * (b / 100) + 10 * (b % 100 / 10) + b % 10 == b && b / 100 <= 2 && b % 100 / 10 <= 9
  {
  }

  lemma ItemEscape(b: byte, t: bytes)
    ensures Item(Escape(b) + t) == Some((Byte(b), |Escape(b)|))
  {
    DecimalDigits(b);
  }

  lemma {:induction false} EscapedFront(l: bytes)
    requires l != []
    ensures Escaped(l) == Escape(l[0]) + Escaped(l[1..])
  {
    hide Escape;
    var n := |l| - 1;
    if n == 0 {
      assert l[..0] == [] && l[1..] == [];
    } else {
      EscapedFront(l[..n]);
      assert l[..n][1..] == l[1..][..n - 1] && l[1..][n - 1] == l[n];
      assert Escape(l[0]) + (Escaped(l[1..n]) + Escape(l[n])) == (Escape(l[0]) + Escaped(l[1..n])) + Escape(l[n]);
    }
  }

  lemma ReadByte(done: Labels, last: bytes, t: bytes, b: byte, n: nat)
    requires t != [] && Item(t) == Some((Byte(b), n))
    ensures Spelled(done, last, t) == Spelled(done, last + [b], t[n..])
  {
  }

  lemma ReadDot(done: Labels, last: bytes, t: bytes)
    requires t != [] && t[0] == 46 && Label(last)
    ensures Spelled(done, last, t) == Spelled(done + [last], [], t[1..])
  {
  }

  lemma ReadEnd(done: Labels, last: bytes)
    ensures Label(last) ==> Spelled(done, last, []) == Some((done + [last], false))
    ensures Spelled(done, [], []) == Some((done, true))
  {
  }

  lemma {:induction false} ReadEscaped(done: Labels, last: bytes, l: bytes, t: bytes)
    ensures Spelled(done, last, Escaped(l) + t) == Spelled(done, last + l, t)
    decreases |l|
  {
    hide Item, Escape, Spelled;
    if l == [] {
      assert Escaped(l) + t == t && last + l == last;
    } else {
      var rest := Escaped(l[1..]) + t;
      EscapedFront(l);
      assert Escaped(l) + t == Escape(l[0]) + rest;
      ItemEscape(l[0], rest);
      assert (Escape(l[0]) + rest)[|Escape(l[0])|..] == rest;
      ReadByte(done, last, Escape(l[0]) + rest, l[0], |Escape(l[0])|);
      ReadEscaped(done, last + [l[0]], l[1..], t);
      assert last + [l[0]] + l[1..] == last + l;
    }
  }

  lemma {:induction false} TextFront(ls: Labels)
    requires ls != []
    ensures Text(ls) == Escaped(ls[0]) + (if |ls| > 1 then [46] + Text(ls[1..]) else [])
  {
    hide Escaped;
    var n := |ls| - 1;
    if n > 0 {
      TextFront(ls[..n]);
      assert ls[..n][1..] == ls[1..][..n - 1] && ls[1..][n - 1] == ls[n];
      if n == 1 {
        assert ls[1..][..0] == [];
      }
    }
  }

  lemma EmptyText()
    ensures Text([]) == []
  {
  }

  /** Reading a printed name after the labels `done`. */
  lemma {:induction false} ReadText(done: Labels, ls: Labels)
    requires WellFormed(ls)
    ensures Spelled(done, [], Text(ls)) == Some((done + ls, ls == []))
    decreases |ls|
  {
    hide Escaped, Item, Spelled, Text;
    if ls == [] {
      EmptyText();
      ReadEnd(done, []);
      assert done + ls == done;
    } else {
      var l := ls[0];
      assert l in ls;
      TextFront(ls);
      if |ls| == 1 {
        assert Escaped(l) + [] == Escaped(l);
        ReadEscaped(done, [], l, []);
        ReadEnd(done, l);
        assert [] + l == l && ls == [l];
      } else {
        var rest := [46] + Text(ls[1..]);
        ReadEscaped(done, [], l, rest);
        assert [] + l == l && rest[1..] == Text(ls[1..]);
        ReadDot(done, l, rest);
        ReadText(done + [l], ls[1..]);
        assert done + [l] + ls[1..] == done + ls;
      }
    }
  }

  lemma {:induction false} EscapedStop(l: bytes)
    requires l != []
    ensures Escaped(l) != [] && Escaped(l)[0] != 46
  {
    EscapedFront(l);
  }

  /** Every well-formed name, the root included, is what its text spells; only the root reads as absolute. */
  lemma TextRoundTrip(ls: Labels)
    requires WellFormed(ls)
    ensures Name(Text(ls)) == Some((ls, ls == []))
  {
    ReadText([], ls);
    assert [] + ls == ls;
    if ls != [] {
      assert ls[0] in ls;
      TextFront(ls);
      EscapedStop(ls[0]);
    }
  }

  lemma {:induction false} EscapedPlain(l: bytes)
    ensures 0 !in Escaped(l)
  {
    if l != [] {
      EscapedPlain(l[..|l| - 1]);
    }
  }

  /** A text holds no zero byte, so its terminator ends it. */
  lemma {:induction false} TextPlain(ls: Labels)
    ensures 0 !in Text(ls)
  {
    if ls != [] {
      TextPlain(ls[..|ls| - 1]);
      EscapedPlain(ls[|ls| - 1]);
    }
  }

  /** The size of a text: at most four bytes a byte and a full stop between labels. */
  lemma {:induction false} EscapedSize(l: bytes)
    ensures |l| <= |Escaped(l)| <= 4 * |l|
  {
    if l != [] {
      EscapedSize(l[..|l| - 1]);
    }
  }

  lemma {:induction false} TextSize(ls: Labels)
    requires WellFormed(ls)
    ensures |Text(ls)| + 3 * |ls| + (if ls == [] then 0 else 1) <= 4 * |Body(ls)|
    ensures |Body(ls)| <= 64 * |ls|
  {
    if ls != [] {
      assert ls[|ls| - 1] in ls;
      TextSize(ls[..|ls| - 1]);
      EscapedSize(ls[|ls| - 1]);
    }
  }

  /** The text of a name of at most 255 bytes fits 1004 bytes with its terminator, short of DNS_MAXNAME. */
  lemma TextBound(ls: Labels)
    requires WellFormed(ls) && |Wire(ls)| <= MAXDN
    ensures |Text(ls)| + 1 <= 1004 < MAXNAME
  {
    TextSize(ls);
  }
}
