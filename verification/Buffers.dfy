/** `buffer_t` and the memory primitives the codec works with. */
module Buffers {
  import opened Basics
  import opened Crypto

  /** s with x written over it from position `at` on. */
  function Splice(s: bytes, at: nat, x: bytes): (r: bytes)
    requires at + |x| <= |s|
    ensures |r| == |s|
    ensures r[..at] == s[..at] && r[at..at + |x|] == x && r[at + |x|..] == s[at + |x|..]
  {
    s[..at] + x + s[at + |x|..]
  }

  /** From s to t, x was put at j and y behind it; what stood in front of j or from need on is unchanged. */
  ghost predicate Laid(s: bytes, t: bytes, j: nat, x: bytes, y: bytes, need: nat) {
    && j + |x| + |y| <= need <= |s| == |t|
    && t[..j] == s[..j] && t[j..j + |x|] == x && t[j + |x|..j + |x| + |y|] == y && t[need..] == s[need..]
  }

  /** Writing y behind x's place and then x: what the array shows afterwards. */
  lemma SpliceTwice(s: bytes, j: nat, x: bytes, y: bytes, need: nat)
    requires j + |x| + |y| <= need <= |s|
    ensures Laid(s, Splice(Splice(s, j + |x|, y), j, x), j, x, y, need)
  {
    var u := Splice(s, j + |x|, y);
    var t := Splice(u, j, x);
    assert t[j + |x|..] == u[j + |x|..];
    assert t[j + |x|..j + |x| + |y|] == t[j + |x|..][..|y|] == u[j + |x|..][..|y|] == u[j + |x|..j + |x| + |y|];
    var d := need - (j + |x| + |y|);
    assert t[need..] == t[j + |x|..][|y| + d..] == u[j + |x|..][|y| + d..] == u[need..];
    assert u[need..] == u[j + |x| + |y|..][d..] == s[j + |x| + |y|..][d..] == s[need..];
    assert t[..j] == u[..j] == u[..j + |x|][..j] == s[..j + |x|][..j] == s[..j];
  }

  /** Byte by byte. */
  lemma Spliced(s: bytes, t: bytes, at: nat, x: bytes)
    requires at + |x| <= |s| == |t|
    requires forall i | 0 <= i < |s| :: t[i] == if at <= i < at + |x| then x[i - at] else s[i]
    ensures t == Splice(s, at, x)
  {
    var r := s[..at] + x + s[at + |x|..];
    forall i | 0 <= i < |s| ensures r[i] == t[i] {
      if at + |x| <= i {
        assert r[i] == s[at + |x|..][i - (at + |x|)];
      }
    }
  }

  /** `memmove` within one array: source and target may overlap. */
  method Move(a: array<byte>, to: nat, from: nat, n: nat)
    requires to + n <= a.Length && from + n <= a.Length
    modifies a
    ensures a[..] == Splice(old(a[..]), to, old(a[from..from + n]))
  {
    hide Splice;
    ghost var was, x := a[..], a[from..from + n];
    forall i | to <= i < to + n {
      a[i] := a[from + (i - to)];
    }
    Spliced(was, a[..], to, x);
  }

  /** `memcpy` between two arrays. */
  method Copy(a: array<byte>, to: nat, src: array<byte>, from: nat, n: nat)
    requires a != src && to + n <= a.Length && from + n <= src.Length
    modifies a
    ensures a[..] == Splice(old(a[..]), to, src[from..from + n])
  {
    hide Splice;
    ghost var was := a[..];
    forall i | to <= i < to + n {
      a[i] := src[from + (i - to)];
    }
    Spliced(was, a[..], to, src[from..from + n]);
  }

  /** Writing a value sequence into an array. */
  method Put(a: array<byte>, to: nat, x: bytes)
    requires to + |x| <= a.Length
    modifies a
    ensures a[..] == Splice(old(a[..]), to, x)
  {
    hide Splice;
    ghost var was := a[..];
    forall i | to <= i < to + |x| {
      a[i] := x[i - to];
    }
    Spliced(was, a[..], to, x);
  }

  /** The first n bytes, or all if there are fewer. */
  function First(w: bytes, n: nat): bytes { if n < |w| then w[..n] else w }

  /** `buffer_t`: `len` bytes of `data`, of which those from `idx` on are still unsent. */
  class Buffer {
    var data: array<byte>
    var len: nat
    var idx: nat

    ghost predicate Valid()
      reads this
    {
      len <= data.Length
    }

    ghost function Contents(): bytes
      requires Valid()
      reads this, data
    {
      data[..len]
    }

    /** The unsent part. */
    ghost function Waiting(): bytes
      reads this, data
    {
      if idx + len <= data.Length then data[idx..idx + len] else []
    }

    lemma NothingWaits()
      requires len == 0
      ensures Waiting() == []
    {
    }

    lemma WaitingLength()
      ensures idx + len <= data.Length ==> |Waiting()| == len
    {
    }

    /** `balloc`. */
    constructor (capacity: nat)
      ensures Valid() && fresh(data) && data.Length == capacity && len == 0 && idx == 0
    {
      data := new byte[capacity];
      len, idx := 0, 0;
    }

    /** A send took n bytes: the rest keeps waiting, or the buffer is empty again. */
    method Consume(n: nat) returns (all: bool, ghost taken: bytes)
      requires idx + len <= data.Length
      modifies this`idx, this`len
      ensures idx + len <= data.Length && all == (n >= old(len))
      ensures taken == First(old(Waiting()), n) && old(Waiting()) == taken + Waiting()
      ensures all ==> len == 0 && idx == 0 && Waiting() == []
    {
      ghost var w := Waiting();
      all := n >= len;
      if all {
        len, idx, taken := 0, 0, w;
        assert w[..|w|] == w;
      } else {
        len, idx, taken := len - n, idx + n, w[..n];
        assert Waiting() == w[n..];
      }
    }

    /** The first send of a fresh buffer took n bytes: the rest is left waiting behind `idx`. */
    method Leave(n: nat) returns (all: bool, ghost taken: bytes)
      requires Valid()
      modifies this`idx, this`len
      ensures Valid() && all == (n >= old(len))
      ensures taken == First(old(Contents()), n) && (all ==> taken == old(Contents()))
      ensures !all ==> idx + len <= data.Length && old(Contents()) == taken + Waiting()
    {
      ghost var w := Contents();
      all, taken := n >= len, w;
      if !all {
        len, idx, taken := len - n, n, w[..n];
        assert Waiting() == w[n..];
      }
    }

    /** `brealloc`: grows, never shrinks, and keeps what was there. */
    method Realloc(need: nat, capacity: nat)
      modifies this`data
      ensures need <= data.Length && capacity <= data.Length && old(data.Length) <= data.Length
      ensures data.Length <= old(data.Length) || data.Length == need || data.Length == capacity
      ensures data[..old(data.Length)] == old(data[..])
      ensures data == old(data) || fresh(data)
    {
      var wanted := if need > capacity then need else capacity;
      if data.Length < wanted {
        var bigger := new byte[wanted];
        forall i | 0 <= i < data.Length {
          bigger[i] := data[i];
        }
        data := bigger;
      }
    }
  }
}
