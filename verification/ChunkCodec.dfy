/**
 `ss_gen_hash` and `ss_check_hash` as they work on buffers.  `ss_check_hash` edits one buffer in
 place: released payload grows from the front while the input not yet parsed is moved behind it.
 */
module ChunkCodec {
  import opened Basics
  import opened Crypto
  import opened Buffers
  import opened Chunks

  /** `chunk_t`: the bytes of the current chunk collected so far, its length and the chunk counter. */
  class Chunk {
    var idx: nat
    var len: nat
    var counter: nat
    const buf: Buffer

    constructor ()
      ensures Valid() && fresh(buf) && fresh(buf.data) && Partial() == [] && counter == 0
    {
      idx, len, counter := 0, 0, 0;
      buf := new Buffer(0);
    }

    /** The first n bytes of a chunk are in place and its length, once known, is noted. */
    ghost predicate Holds(n: nat)
      reads this, buf, buf.data
    {
      && n <= buf.data.Length && len < 65536
      && (n >= CLEN_BYTES ==> len == Announced(buf.data[..n]) && len + AUTH_BYTES <= buf.data.Length)
    }

    ghost predicate Valid()
      reads this, buf, buf.data
    {
      Holds(idx) && !Complete(buf.data[..idx])
    }

    lemma HoldsLess()
      requires Valid()
      ensures idx < len + AUTH_BYTES
    {
    }

    /** One more byte; the second one completes the length field. */
    method Collect(n: nat, b: byte, capacity: nat)
      requires Holds(n) && CLEN_BYTES <= buf.data.Length && !Complete(buf.data[..n])
      modifies this`len, buf`data, buf.data
      ensures Holds(n + 1) && CLEN_BYTES <= buf.data.Length && buf.data[..n + 1] == old(buf.data[..n]) + [b]
      ensures buf.data == old(buf.data) || fresh(buf.data)
      ensures Complete(buf.data[..n + 1]) <==> n + 1 == len + AUTH_BYTES
      ensures n + 1 >= len + AUTH_BYTES ==> n + 1 == len + AUTH_BYTES
    {
      buf.data[n] := b;
      ghost var s := buf.data[..n + 1];
      assert s[..n] == old(buf.data[..n]) && s == s[..n] + [b];
      if n + 1 == CLEN_BYTES {
        var clen := FromBe16(buf.data[0], buf.data[1]);
        buf.Realloc(clen + AUTH_BYTES, capacity);
        len := clen;
        assert buf.data[..n + 1] == s;
      }
    }

    ghost function Partial(): bytes
      requires idx <= buf.data.Length
      reads this, buf, buf.data
    {
      buf.data[..idx]
    }
  }

  /** A chunk that has just become whole is either refused or taken off the stream. */
  lemma ChunkDone(pr: Primitives, iv: bytes, counter: nat, p: bytes, rest: bytes)
    requires |p| >= CLEN_BYTES && |p| == AUTH_BYTES + Announced(p)
    ensures Unframe(pr, iv, counter, p + rest) ==
      if Tag(pr, iv, counter, p[AUTH_BYTES..]) == p[CLEN_BYTES..AUTH_BYTES]
      then Prepend(p[AUTH_BYTES..], Unframe(pr, iv, Next(counter), rest)) else BadHash
  {
    HeadStays(pr, iv, counter, p, rest);
    assert p[AUTH_BYTES..AUTH_BYTES + Announced(p)] == p[AUTH_BYTES..];
    assert p[|p|..] + rest == rest;
  }

  /** The `memmove` and `memcpy` that put a whole chunk's payload in front of the remaining input. */
  method Deliver(a: array<byte>, j: nat, k: nat, rest: nat, chunk: array<byte>, len: nat, ghost need: nat)
    requires a != chunk && j <= k && k + rest <= need && j + len + rest <= need <= a.Length && AUTH_BYTES + len <= chunk.Length
    modifies a
    ensures Laid(old(a[..]), a[..], j, chunk[AUTH_BYTES..AUTH_BYTES + len], old(a[k..k + rest]), need)
  {
    hide Splice, Laid;
    ghost var was, tail := a[..], a[k..k + rest];
    Move(a, j + len, k, rest);
    Copy(a, j, chunk, AUTH_BYTES, len);
    SpliceTwice(was, j, chunk[AUTH_BYTES..AUTH_BYTES + len], tail, need);
  }

  /**
   The end of a chunk: its tag is compared, and on success its payload goes to position j of the
   buffer, the `rest` bytes of input at k go behind it, and the chunk is counted.
   */
  method TakeChunk(pr: Primitives, a: array<byte>, j: nat, k: nat, rest: nat, chunk: Chunk, iv: bytes, ghost need: nat)
    returns (ok: bool)
    requires a != chunk.buf.data && chunk.Holds(chunk.len + AUTH_BYTES)
    requires j <= k && k + rest <= need && j + chunk.len + rest <= need <= a.Length
    modifies a, chunk`counter
    ensures var p := chunk.buf.data[..chunk.len + AUTH_BYTES];
      && ok == (Tag(pr, iv, old(chunk.counter), p[AUTH_BYTES..]) == p[CLEN_BYTES..AUTH_BYTES])
      && (ok ==> a[..][j..j + chunk.len] == p[AUTH_BYTES..])
    ensures ok ==> a[..][..j] == old(a[..])[..j]
    ensures ok ==> a[..][j + chunk.len..j + chunk.len + rest] == old(a[..])[k..k + rest]
    ensures a[..][need..] == old(a[..])[need..]
    ensures ok ==> chunk.counter == Next(old(chunk.counter))
  {
    hide Tag, Announced;
    var len := chunk.len;
    ghost var p := chunk.buf.data[..len + AUTH_BYTES];
    assert p[AUTH_BYTES..] == chunk.buf.data[AUTH_BYTES..AUTH_BYTES + len];
    assert p[CLEN_BYTES..AUTH_BYTES] == chunk.buf.data[CLEN_BYTES..AUTH_BYTES];
    var hash := Tag(pr, iv, chunk.counter, chunk.buf.data[AUTH_BYTES..AUTH_BYTES + len]);
    if hash != chunk.buf.data[CLEN_BYTES..AUTH_BYTES] {
      return false;
    }
    Deliver(a, j, k, rest, chunk.buf.data, len, need);
    chunk.counter := Next(chunk.counter);
    return true;
  }

  /** The same in terms of the reference parser, with `todo` the input behind the chunk. */
  method EndChunk(pr: Primitives, a: array<byte>, j: nat, k: nat, rest: nat, chunk: Chunk, iv: bytes,
                  ghost todo: bytes, ghost need: nat)
    returns (ok: bool)
    requires a != chunk.buf.data && chunk.Holds(chunk.len + AUTH_BYTES)
    requires j <= k && k + rest <= need && j + chunk.len + rest <= need <= a.Length
    requires |todo| == rest && a[..][k..k + rest] == todo
    modifies a, chunk`counter
    ensures a[..][need..] == old(a[..])[need..]
    ensures var p := Unframe(pr, iv, old(chunk.counter), chunk.buf.data[..chunk.len + AUTH_BYTES] + todo);
      if !ok then p.BadHash? else
      && a[..][..j] == old(a[..])[..j] && a[..][j + chunk.len..j + chunk.len + rest] == todo
      && p == Prepend(a[..][j..j + chunk.len], Unframe(pr, iv, chunk.counter, todo))
  {
    hide Unframe, Tag;
    ghost var part := chunk.buf.data[..chunk.len + AUTH_BYTES];
    ChunkDone(pr, iv, chunk.counter, part, todo);
    ok := TakeChunk(pr, a, j, k, rest, chunk, iv, need);
  }

  /**
   One turn of the loop of `ss_check_hash`: the byte at k joins the chunk, which may complete it.
   `later` is the input behind that byte.
   */
  method ParseByte(pr: Primitives, a: array<byte>, j: nat, k: nat, cidx: nat, rest: nat, chunk: Chunk, iv: bytes,
                   capacity: nat, ghost later: bytes, ghost need: nat)
    returns (ok: bool, j': nat, k': nat, cidx': nat, ghost released: bytes, ghost held: bytes)
    requires chunk.Holds(cidx) && CLEN_BYTES <= chunk.buf.data.Length && a != chunk.buf.data
    requires !Complete(chunk.buf.data[..cidx])
    requires |later| == rest && j <= k && k + 1 + rest <= need <= a.Length && j + cidx + 1 + rest <= need + AUTH_BYTES
    requires a[..][k + 1..k + 1 + rest] == later
    modifies a, chunk`len, chunk`counter, chunk.buf`data, chunk.buf.data
    ensures chunk.buf.data == old(chunk.buf.data) || fresh(chunk.buf.data)
    ensures a != chunk.buf.data && CLEN_BYTES <= chunk.buf.data.Length
    ensures a[..][need..] == old(a[..])[need..]
    ensures !ok ==> Unframe(pr, iv, old(chunk.counter), old(chunk.buf.data[..cidx] + [a[k]]) + later).BadHash?
    ensures ok ==>
      && chunk.Holds(cidx') && held == chunk.buf.data[..cidx'] && !Complete(held)
      && j <= j' <= k' && k' + rest <= need && j' + cidx' + rest <= need + AUTH_BYTES
      && a[..][..j] == old(a[..])[..j] && released == a[..][j..j'] && a[..][k'..k' + rest] == later
      && Unframe(pr, iv, old(chunk.counter), old(chunk.buf.data[..cidx] + [a[k]]) + later) ==
         Prepend(released, Unframe(pr, iv, chunk.counter, held + later))
  {
    hide Unframe, Complete, Prepend, Announced;
    ghost var cur, part := a[..], chunk.buf.data[..cidx] + [a[k]];
    chunk.Collect(cidx, a[k], capacity);
    assert a[..] == cur && chunk.buf.data[..cidx + 1] == part;
    ok, j', k', cidx', released, held := Turn(pr, a, j, k + 1, cidx + 1, rest, chunk, iv, later, need);
  }

  /** The rest of a turn, with n bytes of the chunk collected. */
  method Turn(pr: Primitives, a: array<byte>, j: nat, k: nat, n: nat, rest: nat, chunk: Chunk, iv: bytes,
              ghost later: bytes, ghost need: nat)
    returns (ok: bool, j': nat, k': nat, cidx': nat, ghost released: bytes, ghost held: bytes)
    requires chunk.Holds(n) && a != chunk.buf.data && (Complete(chunk.buf.data[..n]) <==> n == chunk.len + AUTH_BYTES)
    requires |later| == rest && j <= k && k + rest <= need <= a.Length && j + n + rest <= need + AUTH_BYTES
    requires a[..][k..k + rest] == later
    modifies a, chunk`counter
    ensures a[..][need..] == old(a[..])[need..]
    ensures !ok ==> Unframe(pr, iv, old(chunk.counter), chunk.buf.data[..n] + later).BadHash?
    ensures ok ==>
      && chunk.Holds(cidx') && held == chunk.buf.data[..cidx'] && !Complete(held)
      && j <= j' <= k' && k' + rest <= need && j' + cidx' + rest <= need + AUTH_BYTES
      && a[..][..j] == old(a[..])[..j] && released == a[..][j..j'] && a[..][k'..k' + rest] == later
      && Unframe(pr, iv, old(chunk.counter), chunk.buf.data[..n] + later) ==
         Prepend(released, Unframe(pr, iv, chunk.counter, held + later))
  {
    hide Unframe, Complete, Prepend, Announced;
    if n == chunk.len + AUTH_BYTES {
      ok := EndChunk(pr, a, j, k, rest, chunk, iv, later, need);
      j', cidx' := j + chunk.len, 0;
      k', released, held := j', a[..][j..j'], [];
      EmptyIncomplete();
      assert held + later == later;
    } else {
      ok, j', k', cidx' := true, j, k, n;
      released, held := [], chunk.buf.data[..n];
      PrependNothing(Unframe(pr, iv, chunk.counter, held + later));
    }
  }

  /** With `out` released, part of a chunk held and `todo` still to come, the whole input parses to `whole`. */
  ghost predicate Leaves(pr: Primitives, iv: bytes, whole: Parsed, out: bytes, counter: nat, held: bytes, todo: bytes) {
    Prepend(out, Unframe(pr, iv, counter, held + todo)) == whole
  }

  lemma LeavesAll(pr: Primitives, iv: bytes, counter: nat, held: bytes, todo: bytes)
    ensures Leaves(pr, iv, Unframe(pr, iv, counter, held + todo), [], counter, held, todo)
  {
    hide Unframe;
  }

  /** A turn that is refused means that the whole input is. */
  lemma LeavesNothing(pr: Primitives, iv: bytes, whole: Parsed, out: bytes, counter: nat, held: bytes, todo: bytes)
    requires Leaves(pr, iv, whole, out, counter, held, todo) && todo != []
    requires Unframe(pr, iv, counter, (held + [todo[0]]) + todo[1..]).BadHash?
    ensures whole.BadHash?
  {
    hide Unframe;
    assert (held + [todo[0]]) + todo[1..] == held + todo;
  }

  lemma LeavesLess(pr: Primitives, iv: bytes, whole: Parsed, out: bytes, counter: nat, held: bytes, todo: bytes,
                   released: bytes, counter': nat, held': bytes)
    requires Leaves(pr, iv, whole, out, counter, held, todo) && todo != []
    requires Unframe(pr, iv, counter, (held + [todo[0]]) + todo[1..]) ==
      Prepend(released, Unframe(pr, iv, counter', held' + todo[1..]))
    ensures Leaves(pr, iv, whole, out + released, counter', held', todo[1..])
  {
    hide Unframe, Prepend;
    assert (held + [todo[0]]) + todo[1..] == held + todo;
    PrependTwice(out, released, Unframe(pr, iv, counter', held' + todo[1..]));
  }

  lemma LeavesRest(pr: Primitives, iv: bytes, whole: Parsed, out: bytes, counter: nat, held: bytes)
    requires Leaves(pr, iv, whole, out, counter, held, []) && !Complete(held)
    ensures whole == Parsed(out, held, counter)
  {
    hide Unframe;
    assert held + [] == held;
    Incomplete(pr, iv, counter, held);
  }

  /** The loop of `ss_check_hash` over the array: `j` bytes are released, `cidx` bytes of a chunk are held. */
  method Parse(pr: Primitives, a: array<byte>, blen: nat, chunk: Chunk, iv: bytes, capacity: nat)
    returns (ok: bool, j: nat, cidx: nat)
    requires chunk.Valid() && CLEN_BYTES <= chunk.buf.data.Length && a != chunk.buf.data && chunk.len + blen <= a.Length
    modifies a, chunk`len, chunk`counter, chunk.buf`data, chunk.buf.data
    ensures chunk.buf.data == old(chunk.buf.data) || fresh(chunk.buf.data)
    ensures a != chunk.buf.data
    ensures var p := Unframe(pr, iv, old(chunk.counter), old(chunk.Partial() + a[..blen]));
      if !ok then p.BadHash?
      else
        && p.Parsed? && j <= a.Length && a[..j] == p.out && chunk.counter == p.counter
        && chunk.Holds(cidx) && chunk.buf.data[..cidx] == p.rest && !Complete(p.rest)
    ensures a[..][old(chunk.len) + blen..] == old(a[..])[old(chunk.len) + blen..]
  {
    hide Unframe, Complete, Prepend, Announced, Leaves;
    ghost var todo, need := a[..blen], chunk.len + blen;
    ghost var whole := Unframe(pr, iv, chunk.counter, chunk.Partial() + todo);
    var i, k := 0, 0;
    ok, j, cidx := true, 0, chunk.idx;
    ghost var out: bytes := [];
    LeavesAll(pr, iv, chunk.counter, chunk.Partial(), todo);
    chunk.HoldsLess();
    while i < blen
      invariant |todo| == blen - i && j <= k && k + |todo| <= need && j + cidx + |todo| <= need + AUTH_BYTES
      invariant a != chunk.buf.data && (chunk.buf.data == old(chunk.buf.data) || fresh(chunk.buf.data))
      invariant CLEN_BYTES <= chunk.buf.data.Length
      invariant chunk.Holds(cidx) && !Complete(chunk.buf.data[..cidx])
      invariant a[..][..j] == out && a[..][need..] == old(a[..])[need..] && a[..][k..k + |todo|] == todo
      invariant Leaves(pr, iv, whole, out, chunk.counter, chunk.buf.data[..cidx], todo)
    {
      var j';
      ghost var released, held;
      ghost var later := todo[1..];
      ghost var counter, part := chunk.counter, chunk.buf.data[..cidx];
      Window(a[..], k, todo);
      ok, j', k, cidx, released, held := ParseByte(pr, a, j, k, cidx, blen - i - 1, chunk, iv, capacity, later, need);
      if !ok {
        LeavesNothing(pr, iv, whole, out, counter, part, todo);
        return;
      }
      LeavesLess(pr, iv, whole, out, counter, part, todo, released, chunk.counter, held);
      todo := later;
      Extend(a[..], j, j');
      out := out + released;
      i, j := i + 1, j';
    }
    ghost var part := chunk.buf.data[..cidx];
    LeavesRest(pr, iv, whole, out, chunk.counter, part);
    assert a[..j] == a[..][..j];
  }

  lemma Extend(s: bytes, j: nat, k: nat)
    requires j <= k <= |s|
    ensures s[..k] == s[..j] + s[j..k]
  {
  }

  lemma Window(s: bytes, k: nat, w: bytes)
    requires k + |w| <= |s| && w != [] && s[k..k + |w|] == w
    ensures s[k] == w[0] && s[k + 1..k + 1 + |w[1..]|] == w[1..]
  {
    assert s[k..k + |w|][0] == s[k];
    assert s[k..k + |w|][1..] == s[k + 1..k + |w|];
  }

  /** The two `brealloc` calls `ss_check_hash` starts with. */
  method Grow(buf: Buffer, chunk: Chunk, capacity: nat)
    requires buf.Valid() && chunk.Valid() && buf != chunk.buf && buf.data != chunk.buf.data
    modifies buf`data, chunk.buf`data
    ensures buf.Valid() && chunk.Valid() && buf.data != chunk.buf.data
    ensures buf.data == old(buf.data) || fresh(buf.data)
    ensures chunk.buf.data == old(chunk.buf.data) || fresh(chunk.buf.data)
    ensures chunk.len + buf.len <= buf.data.Length && capacity <= chunk.buf.data.Length && capacity <= buf.data.Length
    ensures chunk.Partial() == old(chunk.Partial()) && buf.data[..buf.len] == old(buf.Contents())
    ensures old(buf.data.Length) <= buf.data.Length && buf.data[..][..old(buf.data.Length)] == old(buf.data[..])
  {
    ghost var held, input := chunk.Partial(), buf.Contents();
    chunk.buf.Realloc(chunk.len + buf.len, capacity);
    assert chunk.Partial() == held;
    buf.Realloc(chunk.len + buf.len, capacity);
    assert chunk.Partial() == held && buf.data[..buf.len] == input;
  }

  /**
   `ss_check_hash` computes the reference parser on the carried partial chunk followed by the
   buffer: same verdict, same released bytes, same carried partial chunk and counter.  It touches
   no byte of the buffer beyond the first `chunk.len + buf.len`.
   */
  method CheckHash(pr: Primitives, buf: Buffer, chunk: Chunk, iv: bytes, capacity: nat) returns (ok: bool)
    requires buf.Valid() && chunk.Valid() && capacity >= CLEN_BYTES
    requires buf != chunk.buf && buf.data != chunk.buf.data
    modifies buf, buf.data, chunk, chunk.buf, chunk.buf.data
    ensures buf.Valid() && buf.idx == old(buf.idx) && buf.data != chunk.buf.data && capacity <= buf.data.Length
    ensures buf.data == old(buf.data) || fresh(buf.data)
    ensures chunk.buf.data == old(chunk.buf.data) || fresh(chunk.buf.data)
    ensures var p := Unframe(pr, iv, old(chunk.counter), old(chunk.Partial() + buf.Contents()));
      if ok
      then p.Parsed? && chunk.Valid() && buf.Contents() == p.out && chunk.Partial() == p.rest && chunk.counter == p.counter
      else p.BadHash?
    ensures old(chunk.len + buf.len <= buf.data.Length) ==>
      buf.data.Length >= old(buf.data.Length) &&
      buf.data[old(chunk.len + buf.len)..old(buf.data.Length)] == old(buf.data[chunk.len + buf.len..])
  {
    hide Unframe, Complete;
    var blen := buf.len;
    ghost var was, need := buf.data[..], chunk.len + buf.len;
    Grow(buf, chunk, capacity);
    ghost var before := buf.data[..];
    var j, cidx;
    ok, j, cidx := Parse(pr, buf.data, blen, chunk, iv, capacity);
    if ok {
      buf.len := j;
      chunk.idx := cidx;
    }
    assert need <= |was| ==> buf.data[..][need..|was|] == was[need..] by {
      SameTail(was, before, buf.data[..], need);
    }
  }

  lemma SameTail(was: bytes, before: bytes, after: bytes, need: nat)
    requires |was| <= |before| == |after| && before[..|was|] == was && need <= |before| && after[need..] == before[need..]
    ensures need <= |was| ==> after[need..|was|] == was[need..]
  {
    if need <= |was| {
      assert after[need..|was|] == after[need..][..|was| - need];
      assert was[need..] == before[need..][..|was| - need];
    }
  }

  lemma EmptyIncomplete()
    ensures !Complete([])
  {
  }

  lemma Incomplete(pr: Primitives, iv: bytes, counter: nat, p: bytes)
    requires !Complete(p)
    ensures Unframe(pr, iv, counter, p) == Parsed([], p, counter)
  {
  }

  lemma PrependNothing(p: Parsed)
    ensures Prepend([], p) == p
  {
  }

  /** `ss_gen_hash` puts length and tag in front of the payload, in place, and counts the chunk. */
  method GenHash(pr: Primitives, buf: Buffer, counter: nat, iv: bytes, capacity: nat) returns (counter': nat)
    requires buf.Valid()
    modifies buf, buf.data
    ensures buf.Valid() && buf.idx == old(buf.idx) && (buf.data == old(buf.data) || fresh(buf.data))
    ensures buf.Contents() == Frame(pr, iv, counter, old(buf.Contents())) && counter' == Next(counter)
  {
    hide Tag;
    var blen := buf.len;
    ghost var p := buf.Contents();
    buf.Realloc(AUTH_BYTES + blen, capacity);
    assert buf.data[0..0 + blen] == p;
    var hash := Tag(pr, iv, counter, buf.data[..blen]);
    WriteFrame(buf.data, blen, Be16(blen), hash);
    buf.len := blen + AUTH_BYTES;
    counter' := Next(counter);
  }

  method WriteFrame(a: array<byte>, n: nat, len: bytes, tag: bytes)
    requires |len| == CLEN_BYTES && |tag| == ONETIMEAUTH_BYTES && AUTH_BYTES + n <= a.Length
    modifies a
    ensures a[..n + AUTH_BYTES] == len + tag + old(a[..n])
  {
    ghost var p := a[..n];
    Move(a, AUTH_BYTES, 0, n);
    assert a[..][AUTH_BYTES..AUTH_BYTES + n] == p;
    ghost var moved := a[..];
    Put(a, CLEN_BYTES, tag);
    ghost var tagged := a[..];
    assert tagged[AUTH_BYTES..] == moved[AUTH_BYTES..];
    assert tagged[CLEN_BYTES..AUTH_BYTES] == tag;
    assert tagged[AUTH_BYTES..AUTH_BYTES + n] == tagged[AUTH_BYTES..][..n] == moved[AUTH_BYTES..][..n] == p;
    Put(a, 0, len);
    ghost var done := a[..];
    assert done[CLEN_BYTES..] == tagged[CLEN_BYTES..];
    assert done[CLEN_BYTES..AUTH_BYTES] == done[CLEN_BYTES..][..ONETIMEAUTH_BYTES] == tag;
    assert done[AUTH_BYTES..AUTH_BYTES + n] == done[CLEN_BYTES..][ONETIMEAUTH_BYTES..][..n] == p;
    Assemble(a[..], len, tag, p);
  }

  lemma Assemble(s: bytes, x: bytes, y: bytes, z: bytes)
    requires |x| + |y| + |z| <= |s|
    requires s[..|x|] == x && s[|x|..|x| + |y|] == y && s[|x| + |y|..|x| + |y| + |z|] == z
    ensures s[..|x| + |y| + |z|] == x + y + z
  {
  }
}
