/**
 One-time-auth chunks: `LEN(2) | HMAC-SHA1(10) | DATA`, the HMAC keyed by IV and chunk counter.

 `Frame` is what `ss_gen_hash` makes of a payload.  `Unframe` is the reference parser: it takes
 whole chunks off the front of a byte stream and keeps the incomplete rest.
 */
module Chunks {
  import opened Basics
  import opened Crypto

  const CLEN_BYTES: nat := 2
  const ONETIMEAUTH_BYTES: nat := 10
  const AUTH_BYTES: nat := 12

  function Be16(n: nat): (r: bytes)
    ensures |r| == 2
  {
    [n / 256 % 256, n % 256]
  }

  function Be32(n: nat): (r: bytes)
    ensures |r| == 4
  {
    Be16(n / 65536) + Be16(n)
  }

  function FromBe16(a: byte, b: byte): (n: nat)
    ensures n < 65536
  {
    a * 256 + b
  }

  lemma ModUnique(n: nat, w: nat, m: nat)
    requires n == 65536 * w + m && m < 65536
    ensures n % 65536 == m
  {
  }

  lemma Be16RoundTrip(n: nat)
    ensures FromBe16(Be16(n)[0], Be16(n)[1]) == n % 65536
  {
    var q := n / 256;
    var w := q / 256;
    assert n == 256 * q + n % 256;
    assert q == 256 * w + q % 256;
    ModUnique(n, w, 256 * (q % 256) + n % 256);
  }

  /** A 32-bit counter. */
  function Next(counter: nat): nat { (counter + 1) % 0x1_0000_0000 }

  function Tag(pr: Primitives, iv: bytes, counter: nat, data: bytes): (t: bytes)
    ensures |t| == ONETIMEAUTH_BYTES
  {
    pr.hmac(iv + Be32(counter), data)[..ONETIMEAUTH_BYTES]
  }

  function Frame(pr: Primitives, iv: bytes, counter: nat, data: bytes): (r: bytes)
    ensures |r| == AUTH_BYTES + |data|
  {
    Be16(|data|) + Tag(pr, iv, counter, data) + data
  }

  /** `out` was released, `rest` is the partial chunk carried over. */
  datatype Parsed = Parsed(out: bytes, rest: bytes, counter: nat) | BadHash

  /** The length announced by a stream that shows its length field. */
  function Announced(s: bytes): (n: nat)
    requires |s| >= CLEN_BYTES
    ensures n < 65536
  {
    FromBe16(s[0], s[1])
  }

  predicate Complete(s: bytes) {
    |s| >= CLEN_BYTES && |s| >= AUTH_BYTES + Announced(s)
  }

  predicate Authentic(pr: Primitives, iv: bytes, counter: nat, s: bytes)
    requires Complete(s)
  {
    Tag(pr, iv, counter, s[AUTH_BYTES..AUTH_BYTES + Announced(s)]) == s[CLEN_BYTES..AUTH_BYTES]
  }

  function Prepend(out: bytes, p: Parsed): Parsed {
    if p.BadHash? then BadHash else p.(out := out + p.out)
  }

  function Unframe(pr: Primitives, iv: bytes, counter: nat, s: bytes): Parsed
    decreases |s|
  {
    if !Complete(s) then Parsed([], s, counter)
    else if !Authentic(pr, iv, counter, s) then BadHash
    else
      var n := AUTH_BYTES + Announced(s);
      Prepend(s[AUTH_BYTES..n], Unframe(pr, iv, Next(counter), s[n..]))
  }

  // ---------------------------------------------------------------- fragmentation

  lemma {:induction false} RestIsIncomplete(pr: Primitives, iv: bytes, counter: nat, s: bytes)
    ensures var p := Unframe(pr, iv, counter, s); p.Parsed? ==> !Complete(p.rest) && |p.rest| + |p.out| <= |s|
    decreases |s|
  {
    if Complete(s) && Authentic(pr, iv, counter, s) {
      RestIsIncomplete(pr, iv, Next(counter), s[AUTH_BYTES + Announced(s)..]);
    }
  }

  /** More input does not change the chunk at the front. */
  lemma HeadStays(pr: Primitives, iv: bytes, counter: nat, a: bytes, b: bytes)
    requires Complete(a)
    ensures Complete(a + b) && Announced(a + b) == Announced(a)
    ensures Authentic(pr, iv, counter, a + b) == Authentic(pr, iv, counter, a)
    ensures var n := AUTH_BYTES + Announced(a);
      (a + b)[AUTH_BYTES..n] == a[AUTH_BYTES..n] && (a + b)[n..] == a[n..] + b
  {
    var n := AUTH_BYTES + Announced(a);
    assert (a + b)[CLEN_BYTES..AUTH_BYTES] == a[CLEN_BYTES..AUTH_BYTES];
    assert (a + b)[AUTH_BYTES..n] == a[AUTH_BYTES..n];
  }

  lemma PrependTwice(x: bytes, y: bytes, p: Parsed)
    ensures Prepend(x, Prepend(y, p)) == Prepend(x + y, p)
  {
    if p.Parsed? {
      assert x + (y + p.out) == (x + y) + p.out;
    }
  }

  /** Resuming with the carried partial chunk and the carried counter. */
  function Resume(pr: Primitives, iv: bytes, p: Parsed, b: bytes): Parsed {
    if p.BadHash? then BadHash else Prepend(p.out, Unframe(pr, iv, p.counter, p.rest + b))
  }

  /** A parser fed `a` and then `b` ends where one fed `a + b` ends. */
  lemma {:induction false} UnframeAppend(pr: Primitives, iv: bytes, counter: nat, a: bytes, b: bytes)
    ensures Unframe(pr, iv, counter, a + b) == Resume(pr, iv, Unframe(pr, iv, counter, a), b)
    decreases |a|
  {
    if !Complete(a) {
      var q := Unframe(pr, iv, counter, a + b);
      assert q.Parsed? ==> [] + q.out == q.out;
    } else {
      var n := AUTH_BYTES + Announced(a);
      HeadStays(pr, iv, counter, a, b);
      if Authentic(pr, iv, counter, a) {
        var q := Unframe(pr, iv, Next(counter), a[n..]);
        UnframeAppend(pr, iv, Next(counter), a[n..], b);
        if q.Parsed? {
          PrependTwice(a[AUTH_BYTES..n], q.out, Unframe(pr, iv, q.counter, q.rest + b));
        }
      }
    }
  }

  // ---------------------------------------------------------------- sender and receiver

  function FrameAll(pr: Primitives, iv: bytes, counter: nat, ps: seq<bytes>): bytes
    decreases |ps|
  {
    if ps == [] then [] else Frame(pr, iv, counter, ps[0]) + FrameAll(pr, iv, Next(counter), ps[1..])
  }

  /** The chunks of ps that are whole within the first n bytes of their frames. */
  function WholeChunks(ps: seq<bytes>, n: nat): (k: nat)
    ensures k <= |ps|
    decreases |ps|
  {
    if ps == [] || n < AUTH_BYTES + |ps[0]| then 0
    else 1 + WholeChunks(ps[1..], n - (AUTH_BYTES + |ps[0]|))
  }

  predicate Fits(p: bytes) { |p| < 65536 }

  lemma FrameShape(pr: Primitives, iv: bytes, counter: nat, p: bytes, tail: bytes)
    ensures var s := Frame(pr, iv, counter, p) + tail;
      && Announced(s) == |p| % 65536
      && s[CLEN_BYTES..AUTH_BYTES] == Tag(pr, iv, counter, p)
      && s[AUTH_BYTES..AUTH_BYTES + |p|] == p
      && s[AUTH_BYTES + |p|..] == tail
  {
    Be16RoundTrip(|p|);
    var s, t := Frame(pr, iv, counter, p) + tail, Tag(pr, iv, counter, p);
    assert s == Be16(|p|) + (t + (p + tail));
    assert s[0] == Be16(|p|)[0] && s[1] == Be16(|p|)[1];
    assert s[CLEN_BYTES..] == t + (p + tail);
    assert s[AUTH_BYTES..] == p + tail;
  }

  /** A prefix that stops inside the first frame is not yet a chunk. */
  lemma CutFrame(pr: Primitives, iv: bytes, counter: nat, p: bytes, tail: bytes, s: bytes)
    requires Fits(p) && s <= Frame(pr, iv, counter, p) + tail && |s| < AUTH_BYTES + |p|
    ensures !Complete(s)
  {
    FrameShape(pr, iv, counter, p, tail);
    if |s| >= 2 {
      assert s[0] == (Frame(pr, iv, counter, p) + tail)[0] && s[1] == (Frame(pr, iv, counter, p) + tail)[1];
    }
  }

  /** A whole frame at the front is accepted and taken off. */
  lemma TakeFrame(pr: Primitives, iv: bytes, counter: nat, p: bytes, tail: bytes)
    requires Fits(p)
    ensures Unframe(pr, iv, counter, Frame(pr, iv, counter, p) + tail) == Prepend(p, Unframe(pr, iv, Next(counter), tail))
  {
    FrameShape(pr, iv, counter, p, tail);
    hide Frame, Tag;
    assert Complete(Frame(pr, iv, counter, p) + tail);
  }

  lemma SplitPrefix(s: bytes, f: bytes, tail: bytes)
    requires s <= f + tail && |f| <= |s|
    ensures s == f + s[|f|..] && s[|f|..] <= tail
  {
    assert s[..|f|] == (f + tail)[..|f|] == f;
    assert s[|f|..] == tail[..|s| - |f|];
  }

  lemma FlattenTake(ps: seq<bytes>, k: nat)
    requires k < |ps|
    ensures Flatten(ps[..k + 1]) == ps[0] + Flatten(ps[1..][..k])
  {
    assert ps[..k + 1][1..] == ps[1..][..k];
  }

  /** The stream is accepted and releases exactly the payloads of its whole chunks. */
  ghost predicate ReleasesWhole(pr: Primitives, iv: bytes, counter: nat, ps: seq<bytes>, s: bytes) {
    var p := Unframe(pr, iv, counter, s);
    p.Parsed? && p.out == Flatten(ps[..WholeChunks(ps, |s|)])
  }

  lemma ReleaseNext(pr: Primitives, iv: bytes, counter: nat, ps: seq<bytes>, s: bytes)
    requires ps != [] && Fits(ps[0]) && ReleasesWhole(pr, iv, Next(counter), ps[1..], s)
    ensures ReleasesWhole(pr, iv, counter, ps, Frame(pr, iv, counter, ps[0]) + s)
  {
    TakeFrame(pr, iv, counter, ps[0], s);
    FlattenTake(ps, WholeChunks(ps[1..], |s|));
  }

  ghost predicate AllFit(ps: seq<bytes>) {
    ps == [] || (Fits(ps[0]) && AllFit(ps[1..]))
  }

  /** Any prefix of framed payloads is accepted and releases exactly the payloads of its whole chunks. */
  lemma {:induction false} UnframePrefix(pr: Primitives, iv: bytes, counter: nat, ps: seq<bytes>, s: bytes)
    requires AllFit(ps) && s <= FrameAll(pr, iv, counter, ps)
    ensures ReleasesWhole(pr, iv, counter, ps, s)
    decreases |ps|
  {
    if ps != [] {
      var f := Frame(pr, iv, counter, ps[0]);
      var tail := FrameAll(pr, iv, Next(counter), ps[1..]);
      if |s| < |f| {
        CutFrame(pr, iv, counter, ps[0], tail, s);
        assert WholeChunks(ps, |s|) == 0;
      } else {
        hide ReleasesWhole, Frame, Fits;
        SplitPrefix(s, f, tail);
        UnframePrefix(pr, iv, Next(counter), ps[1..], s[|f|..]);
        ReleaseNext(pr, iv, counter, ps, s[|f|..]);
      }
    }
  }

  /** A frame comes back as exactly its payload if and only if its length survives the 16-bit field. */
  lemma FrameRoundTrip(pr: Primitives, iv: bytes, counter: nat, p: bytes)
    ensures var r := Unframe(pr, iv, counter, Frame(pr, iv, counter, p));
      (r.Parsed? && r.out == p) <==> Fits(p)
  {
    var f := Frame(pr, iv, counter, p);
    FrameShape(pr, iv, counter, p, []);
    assert f + [] == f;
    if !Fits(p) && Authentic(pr, iv, counter, f) {
      var n := AUTH_BYTES + Announced(f);
      assert f[n..] != [];
      ReleasesLess(pr, iv, Next(counter), f[n..]);
    }
  }

  /** Every chunk costs its header, so a nonempty stream releases less than it holds. */
  lemma ReleasesLess(pr: Primitives, iv: bytes, counter: nat, s: bytes)
    requires s != []
    ensures var p := Unframe(pr, iv, counter, s); p.Parsed? ==> |p.out| < |s|
  {
    if Complete(s) && Authentic(pr, iv, counter, s) {
      RestIsIncomplete(pr, iv, Next(counter), s[AUTH_BYTES + Announced(s)..]);
    }
  }
}
