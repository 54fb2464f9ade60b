/**
 One proxied connection of the server (`src/server.c`, fast open off): client bytes are decrypted,
 stripped of the header, unchunked and forwarded; remote bytes are encrypted and returned.  System
 calls are parameters: what `recv` delivered, how much `send` took, how a lookup ended.
 */
module Relay {
  import opened Basics
  import opened Crypto
  import opened Buffers
  import opened Chunks
  import opened ChunkCodec
  import opened StreamCodec
  import IvCache
  import Header
  import Stream

  const BUF_SIZE: nat := 2048

  datatype Recv = Closed | Again | Failed | Data(bytes: bytes)

  /** `Sent(n)`: the kernel took n bytes, or all of them if there were fewer. */
  datatype Send = Blocked | Broken | Sent(n: nat)

  /** The bytes a send took of those offered. */
  function Took(s: Send, offered: bytes): bytes { if s.Sent? then First(offered, s.n) else [] }

  // ---------------------------------------------------------------- what a connection is to forward

  /** The plaintext of the fragments received so far. */
  function Plain(pr: Primitives, frags: seq<bytes>): Stream.Result
    requires frags == [] || |frags[0]| > pr.ivLen
  {
    Stream.DecryptAll(pr, Stream.Ctx(false, 0, []), frags)
  }

  /** Decrypting one more fragment. */
  ghost predicate GrowsBy(pr: Primitives, ctx: Stream.Ctx, frags: seq<bytes>, f: bytes)
    requires ctx.init || (if frags == [] then |f| > pr.ivLen else |frags[0]| > pr.ivLen)
  {
    var a := Stream.DecryptAll(pr, ctx, frags);
    && a.Output? && (a.ctx.init || |f| > pr.ivLen)
    && var b := Stream.Decrypt(pr, a.ctx, f, false);
       b.Output? && b.ctx.init && Stream.DecryptAll(pr, ctx, frags + [f]) == Stream.Output(a.out + b.out, b.ctx)
  }

  lemma {:induction false} DecryptOneMore(pr: Primitives, ctx: Stream.Ctx, frags: seq<bytes>, f: bytes)
    requires ctx.init || (if frags == [] then |f| > pr.ivLen else |frags[0]| > pr.ivLen)
    ensures GrowsBy(pr, ctx, frags, f)
    decreases |frags|
  {
    if frags == [] {
      assert frags + [f] == [f];
      var b := Stream.Decrypt(pr, ctx, f, false);
      assert Stream.DecryptAll(pr, b.ctx, [f][1..]) == Stream.Output([], b.ctx);
      assert b.out + [] == b.out == [] + b.out;
    } else {
      var d := Stream.Decrypt(pr, ctx, frags[0], false);
      DecryptOneMore(pr, d.ctx, frags[1..], f);
      assert (frags + [f])[1..] == frags[1..] + [f];
      var a := Stream.DecryptAll(pr, d.ctx, frags[1..]);
      var b := Stream.Decrypt(pr, a.ctx, f, false);
      assert d.out + (a.out + b.out) == (d.out + a.out) + b.out;
    }
  }

  /**
   What the fragments received so far oblige the server to send to the remote, given the header of
   the first: `held` and `counter` are what the chunk parser carries.
   */
  ghost predicate Obliges(pr: Primitives, force: bool, frags: seq<bytes>, h: Header.Header,
                          payload: bytes, held: bytes, counter: nat)
  {
    && frags != [] && |frags[0]| > pr.ivLen
    && var p, first := Plain(pr, frags), Plain(pr, frags[..1]);
       && p.Output? && first.Output? && first.out != [] && h.Header? && h.offset <= |p.out|
       && h == Header.Parse(pr, p.ctx.iv, force, first.out)
       && if h.auth then Unframe(pr, p.ctx.iv, 0, p.out[h.offset..]) == Parsed(payload, held, counter)
          else payload == p.out[h.offset..]
  }

  /** The server goes on with the connection: header and chunks of all that has arrived are in order. */
  ghost predicate Accepts(pr: Primitives, force: bool, frags: seq<bytes>) {
    && frags != [] && |frags[0]| > pr.ivLen
    && var p, first := Plain(pr, frags), Plain(pr, frags[..1]);
       && p.Output? && first.Output? && first.out != []
       && var h := Header.Parse(pr, p.ctx.iv, force, first.out);
          h.Header? && h.offset <= |p.out| && (h.auth ==> Unframe(pr, p.ctx.iv, 0, p.out[h.offset..]).Parsed?)
  }

  /** A first fragment is let in: its IV is not a replay and it is accepted. */
  ghost predicate Admissible(pr: Primitives, force: bool, f: bytes, history: seq<bytes>)
    requires |f| >= pr.ivLen
  {
    !IvCache.Refused(history, f[..pr.ivLen], IV_CACHE_SIZE) && Accepts(pr, force, [f])
  }

  /** Of one fragment that holds more than the IV. */
  lemma AcceptsFirst(pr: Primitives, force: bool, f: bytes)
    requires |f| > pr.ivLen
    ensures var d := Stream.Decrypt(pr, Stream.Ctx(false, 0, []), f, false);
      && d.Output? && d.out != []
      && var h := Header.Parse(pr, d.ctx.iv, force, d.out);
         Accepts(pr, force, [f]) <==> h.Header? && (h.auth ==> Unframe(pr, d.ctx.iv, 0, d.out[h.offset..]).Parsed?)
  {
    hide Unframe, Header.Parse;
    var d := Stream.Decrypt(pr, Stream.Ctx(false, 0, []), f, false);
    assert [f][1..] == [] && [f][..1] == [f];
    assert Stream.DecryptAll(pr, d.ctx, []) == Stream.Output([], d.ctx);
    assert d.out + [] == d.out;
    assert Plain(pr, [f]) == d;
  }

  /** Of one more fragment: just its own chunks matter. */
  lemma AcceptsMore(pr: Primitives, force: bool, frags: seq<bytes>, h: Header.Header, payload: bytes, held: bytes, counter: nat, f: bytes)
    requires Obliges(pr, force, frags, h, payload, held, counter) && Plain(pr, frags).ctx.init
    ensures var a := Plain(pr, frags);
      var b := Stream.Decrypt(pr, a.ctx, f, false);
      Accepts(pr, force, frags + [f]) <==> (h.auth ==> Unframe(pr, a.ctx.iv, counter, held + b.out).Parsed?)
  {
    hide Unframe, Header.Parse, Stream.DecryptAll;
    var a := Plain(pr, frags);
    var b := Stream.Decrypt(pr, a.ctx, f, false);
    DecryptOneMore(pr, Stream.Ctx(false, 0, []), frags, f);
    assert (frags + [f])[..1] == frags[..1] && (frags + [f])[0] == frags[0];
    assert (a.out + b.out)[h.offset..] == a.out[h.offset..] + b.out;
    if h.auth {
      UnframeAppend(pr, a.ctx.iv, 0, a.out[h.offset..], b.out);
    }
  }

  lemma ObligesFirst(pr: Primitives, force: bool, f: bytes, payload: bytes, held: bytes, counter: nat)
    requires |f| > pr.ivLen
    requires var d := Stream.Decrypt(pr, Stream.Ctx(false, 0, []), f, false);
      && d.Output? && d.out != []
      && var h := Header.Parse(pr, d.ctx.iv, force, d.out);
         && h.Header?
         && if h.auth then Unframe(pr, d.ctx.iv, 0, d.out[h.offset..]) == Parsed(payload, held, counter)
            else payload == d.out[h.offset..]
    ensures var d := Stream.Decrypt(pr, Stream.Ctx(false, 0, []), f, false);
      Obliges(pr, force, [f], Header.Parse(pr, d.ctx.iv, force, d.out), payload, held, counter)
    ensures Plain(pr, [f]) == Stream.Decrypt(pr, Stream.Ctx(false, 0, []), f, false)
  {
    hide Unframe, Header.Parse;
    var d := Stream.Decrypt(pr, Stream.Ctx(false, 0, []), f, false);
    assert [f][1..] == [] && [f][..1] == [f];
    assert Stream.DecryptAll(pr, d.ctx, []) == Stream.Output([], d.ctx);
    assert d.out + [] == d.out;
    assert Plain(pr, [f]) == d;
  }

  lemma ObligesMore(pr: Primitives, force: bool, frags: seq<bytes>, h: Header.Header,
                    payload: bytes, held: bytes, counter: nat, f: bytes, more: bytes, held': bytes, counter': nat)
    requires Obliges(pr, force, frags, h, payload, held, counter)
    requires Plain(pr, frags).ctx.init
    requires var a := Plain(pr, frags);
      var b := Stream.Decrypt(pr, a.ctx, f, false);
      if h.auth then Unframe(pr, a.ctx.iv, counter, held + b.out) == Parsed(more, held', counter') else more == b.out
    ensures Obliges(pr, force, frags + [f], h, payload + more, held', counter')
    ensures Plain(pr, frags + [f]).ctx == Stream.Decrypt(pr, Plain(pr, frags).ctx, f, false).ctx
  {
    hide Unframe, Header.Parse, Stream.DecryptAll;
    var a := Plain(pr, frags);
    var b := Stream.Decrypt(pr, a.ctx, f, false);
    DecryptOneMore(pr, Stream.Ctx(false, 0, []), frags, f);
    assert (frags + [f])[..1] == frags[..1];
    assert (frags + [f])[0] == frags[0];
    assert (a.out + b.out)[h.offset..] == a.out[h.offset..] + b.out;
    if h.auth {
      UnframeAppend(pr, a.ctx.iv, 0, a.out[h.offset..], b.out);
    }
  }

  /** The fragments are what has arrived of the client's calls `ms`, cut anew. */
  ghost predicate Arrived(pr: Primitives, iv: bytes, ms: seq<bytes>, frags: seq<bytes>) {
    && |iv| == pr.ivLen && ms != [] && Stream.InRange(pr.cipher, |Flatten(ms)|)
    && Flatten(frags) <= Stream.EncryptAll(pr, Stream.Ctx(false, 0, iv), ms)
  }

  /** A client's plaintext: a header, then its payload, in chunks if authentication is on. */
  function ClientPlain(pr: Primitives, iv: bytes, auth: bool, head: bytes, ps: seq<bytes>): bytes {
    head + (if auth then FrameAll(pr, iv, 0, ps) else Flatten(ps))
  }

  /** What has arrived, and the first fragment of it, decrypt to the start of what the client sent. */
  lemma ArrivedDecrypts(pr: Primitives, iv: bytes, ms: seq<bytes>, frags: seq<bytes>)
    requires Arrived(pr, iv, ms, frags) && frags != [] && |frags[0]| > pr.ivLen
    ensures var p, n := Plain(pr, frags), |Flatten(frags)| - |iv|;
      p.Output? && 0 <= n <= |Flatten(ms)| && p.out == Flatten(ms)[..n] && p.ctx.iv == iv && |frags[0]| <= |Flatten(frags)|
    ensures var first, k := Plain(pr, frags[..1]), |frags[0]| - |iv|;
      first.Output? && 0 < k <= |Flatten(ms)| && first.out == Flatten(ms)[..k]
  {
    hide Stream.EncryptAll, Stream.DecryptAll, Stream.InRange;
    var one := frags[..1];
    assert one[1..] == [] && frags[0] + [] == frags[0];
    assert Flatten(one) == frags[0];
    Stream.DecryptInvertsEncrypt(pr, iv, ms, frags, 0, 0, []);
    Stream.DecryptInvertsEncrypt(pr, iv, ms, one, 0, 0, []);
  }

  /**
   An honest client encrypts a header and then its payload, cut in any way.  It is let in exactly if
   the first fragment the server looks at holds the whole header.  Then what the fragments received
   so far oblige the server to send is the payload as far as it has arrived, by whole chunks or byte
   for byte, whatever the network made of the other cuts.
   */
  lemma HonestClientIsServed(pr: Primitives, force: bool, frags: seq<bytes>, iv: bytes, ms: seq<bytes>, head: bytes, ps: seq<bytes>)
    returns (payload: bytes, held: bytes, counter: nat)
    requires Header.Whole(pr, iv, force, head) && AllFit(ps)
    requires Arrived(pr, iv, ms, frags) && frags != [] && |frags[0]| > pr.ivLen
    requires Flatten(ms) == ClientPlain(pr, iv, Header.Parse(pr, iv, force, head).auth, head, ps)
    ensures Accepts(pr, force, frags) <==> |frags[0]| >= pr.ivLen + |head|
    ensures |frags[0]| >= pr.ivLen + |head| ==>
      var h, n := Header.Parse(pr, iv, force, head), |Flatten(frags)| - |iv| - |head|;
      && Obliges(pr, force, frags, h, payload, held, counter) && n >= 0
      && if h.auth then payload == Flatten(ps[..WholeChunks(ps, n)]) else n <= |Flatten(ps)| && payload == Flatten(ps)[..n]
  {
    hide Stream.EncryptAll, Stream.DecryptAll, Flatten, FrameAll, AllFit, Unframe, Header.Parse, WholeChunks, Stream.InRange, Plain;
    var h := Header.Parse(pr, iv, force, head);
    var all := Flatten(ms);
    var n, k := |Flatten(frags)| - |iv|, |frags[0]| - |iv|;
    ArrivedDecrypts(pr, iv, ms, frags);
    HeaderArrives(pr, iv, force, head, all, k);
    payload, held, counter := [], [], 0;
    if |frags[0]| >= pr.ivLen + |head| {
      if h.auth {
        payload, held, counter := ChunksBehind(pr, iv, all, head, ps, n);
      } else {
        PayloadBehind(pr, iv, head, ps, n);
        payload := all[..n][|head|..];
      }
    }
  }

  lemma HeaderArrives(pr: Primitives, iv: bytes, force: bool, head: bytes, all: bytes, k: nat)
    requires Header.Whole(pr, iv, force, head) && head <= all && 0 < k <= |all|
    ensures var b := all[..k];
      && (Header.Parse(pr, iv, force, b).Header? <==> k >= |head|)
      && (k >= |head| ==> Header.Parse(pr, iv, force, b) == Header.Parse(pr, iv, force, head))
  {
    assert all == head + all[|head|..];
    Header.PrefixParses(pr, iv, force, head, all[|head|..], all[..k]);
  }

  lemma BytesBehind(all: bytes, head: bytes, body: bytes, n: nat)
    requires all == head + body && |head| <= n <= |all|
    ensures n - |head| <= |body| && all[..n][|head|..] == body[..n - |head|]
  {
  }

  lemma PayloadBehind(pr: Primitives, iv: bytes, head: bytes, ps: seq<bytes>, n: nat)
    requires |head| <= n <= |ClientPlain(pr, iv, false, head, ps)|
    ensures n - |head| <= |Flatten(ps)| && ClientPlain(pr, iv, false, head, ps)[..n][|head|..] == Flatten(ps)[..n - |head|]
  {
    BytesBehind(ClientPlain(pr, iv, false, head, ps), head, Flatten(ps), n);
  }

  lemma ChunksBehind(pr: Primitives, iv: bytes, all: bytes, head: bytes, ps: seq<bytes>, n: nat)
    returns (payload: bytes, held: bytes, counter: nat)
    requires AllFit(ps) && all == ClientPlain(pr, iv, true, head, ps) && |head| <= n <= |all|
    ensures Unframe(pr, iv, 0, all[..n][|head|..]) == Parsed(payload, held, counter)
    ensures payload == Flatten(ps[..WholeChunks(ps, n - |head|)])
  {
    hide Flatten, FrameAll, AllFit, Unframe, WholeChunks;
    BytesBehind(all, head, FrameAll(pr, iv, 0, ps), n);
    UnframePrefix(pr, iv, 0, ps, FrameAll(pr, iv, 0, ps)[..n - |head|]);
    var p := Unframe(pr, iv, 0, all[..n][|head|..]);
    payload, held, counter := p.out, p.rest, p.counter;
  }

  // ---------------------------------------------------------------- the two codecs of a connection

  /** Client to remote: `d_ctx`, `chunk` and `auth`, with what they have been fed and have produced. */
  class Decoder {
    const pr: Primitives
    const force: bool
    const chunk: Chunk
    const dctx: EncCtx
    const cache: IvCache.Cache<bytes>
    var auth: bool
    ghost var frags: seq<bytes>
    ghost var header: Header.Header
    ghost var produced: bytes

    /** Before the first fragment; afterwards `produced` is what the fragments oblige the server to send. */
    ghost predicate Valid()
      reads this, chunk, chunk.buf, chunk.buf.data, dctx
    {
      && chunk.Valid() && cache.maxEntries == IV_CACHE_SIZE
      && if frags == [] then dctx.View() == Stream.Ctx(false, 0, []) && chunk.idx == 0 && chunk.counter == 0 && produced == []
         else
           && Obliges(pr, force, frags, header, produced, chunk.Partial(), chunk.counter)
           && Plain(pr, frags).ctx == dctx.View() && dctx.init && auth == header.auth
    }

    constructor (pr: Primitives, force: bool, cache: IvCache.Cache<bytes>)
      requires cache.maxEntries == IV_CACHE_SIZE
      ensures Valid() && frags == [] && this.pr == pr && this.force == force && this.cache == cache
      ensures fresh(chunk) && fresh(chunk.buf) && fresh(chunk.buf.data) && fresh(dctx)
    {
      this.pr, this.force, this.cache := pr, force, cache;
      chunk := new Chunk();
      dctx := new EncCtx([]);
      auth, frags, header, produced := false, [], Header.Malformed, [];
    }

    /** The first ciphertext, IV included, is decrypted and checked and the header is taken off. */
    method Unwrap(buf: Buffer) returns (h: Header.Header)
      requires Valid() && cache.Valid() && frags == [] && buf.Valid() && buf.len > pr.ivLen && buf != chunk.buf && buf.data != chunk.buf.data
      modifies dctx, cache, buf, buf.data
      ensures buf.Valid() && (buf.data == old(buf.data) || fresh(buf.data)) && cache.Valid()
      ensures cache.history == old(cache.history) + [old(buf.Contents())[..pr.ivLen]]
      ensures var d := Stream.Decrypt(pr, Stream.Ctx(false, 0, []), old(buf.Contents()), false);
        h == if IvCache.Refused(old(cache.history), old(buf.Contents())[..pr.ivLen], IV_CACHE_SIZE) then Header.Malformed
             else Header.Parse(pr, d.ctx.iv, force, d.out)
      ensures h.Header? ==>
        var d := Stream.Decrypt(pr, Stream.Ctx(false, 0, []), old(buf.Contents()), false);
        && d.Output? && d.out != [] && |d.out| <= old(buf.len) && dctx.View() == d.ctx && dctx.init
        && h == Header.Parse(pr, d.ctx.iv, force, d.out) && buf.Contents() == d.out[h.offset..]
        && buf.idx == old(buf.idx) && BUF_SIZE <= buf.data.Length
    {
      hide Header.Parse, XorAt, Chunk.Valid, Chunk.Holds, IvCache.Refused, IvCache.Cache.Valid, Stream.Decrypt, Obliges, Plain,
        Unframe, Stream.DecryptAll;
      FirstPlain(pr, buf.Contents());
      var err := Decrypt(pr, buf, dctx, cache, BUF_SIZE);
      if err {
        return Header.Malformed;
      }
      assert buf.Contents() == buf.data[..buf.len];
      h := Header.Parse(pr, dctx.iv, force, buf.data[..buf.len]);
      if h.Header? {
        Strip(buf, h.offset);
      }
    }

    /** The header and the payload of the first fragment are taken over. */
    method Begin(h: Header.Header, ghost f: bytes, ghost payload: bytes)
      requires chunk.Valid() && cache.maxEntries == IV_CACHE_SIZE && |f| > pr.ivLen && Plain(pr, [f]).Output? && h.Header?
      requires Obliges(pr, force, [f], h, payload, chunk.Partial(), chunk.counter)
      requires dctx.View() == Plain(pr, [f]).ctx && dctx.init
      modifies this
      ensures Valid() && frags == [f] && produced == payload
    {
      hide Obliges, Plain, Chunk.Valid, Unframe, Header.Parse;
      auth, header, frags, produced := h.auth, h, [f], payload;
    }

    /** Stage 0 of `server_recv_cb` up to the connection attempt: the payload of the first fragment. */
    method First(buf: Buffer) returns (ok: bool)
      requires Valid() && cache.Valid() && frags == [] && buf.Valid() && buf.len > pr.ivLen && buf != chunk.buf && buf.data != chunk.buf.data
      modifies this, chunk, chunk.buf, chunk.buf.data, dctx, cache, buf, buf.data
      ensures buf.Valid() && buf.data != chunk.buf.data
      ensures buf.data == old(buf.data) || fresh(buf.data)
      ensures chunk.buf.data == old(chunk.buf.data) || fresh(chunk.buf.data)
      ensures ok <==> Admissible(pr, force, old(buf.Contents()), old(cache.history))
      ensures cache.Valid() && cache.history == old(cache.history) + [old(buf.Contents())[..pr.ivLen]]
      ensures ok ==> Valid() && frags == [old(buf.Contents())] && produced == buf.Contents()
      ensures ok ==> buf.len <= old(buf.len) && buf.idx == old(buf.idx) && BUF_SIZE <= buf.data.Length
    {
      hide Unframe, Obliges, Accepts, Stream.DecryptAll, Stream.Decrypt, Plain, Header.Parse, Complete, XorAt,
        IvCache.Refused, IvCache.Cache.Valid;
      ghost var f := buf.Contents();
      AcceptsFirst(pr, force, f);
      var h := Unwrap(buf);
      if h.Malformed? {
        return false;
      }
      ghost var rest := buf.Contents();
      if h.auth {
        assert chunk.Partial() == [] && [] + rest == rest;
        RestIsIncomplete(pr, dctx.iv, 0, rest);
        ok := CheckHash(pr, buf, chunk, dctx.iv, BUF_SIZE);
        if !ok {
          return;
        }
      }
      ObligesFirst(pr, force, f, buf.Contents(), chunk.Partial(), chunk.counter);
      Begin(h, f, buf.Contents());
      ok := true;
    }

    /** Stage 5 of `server_recv_cb` up to the send: the buffer's ciphertext becomes payload. */
    method Next(buf: Buffer) returns (ok: bool)
      requires Valid() && cache.Valid() && frags != [] && buf.Valid() && buf != chunk.buf && buf.data != chunk.buf.data
      modifies this, chunk, chunk.buf, chunk.buf.data, dctx, cache, buf, buf.data
      ensures buf.Valid() && buf.data != chunk.buf.data && buf.idx == old(buf.idx)
      ensures buf.data == old(buf.data) || fresh(buf.data)
      ensures chunk.buf.data == old(chunk.buf.data) || fresh(chunk.buf.data)
      ensures ok <==> Accepts(pr, force, old(frags) + [old(buf.Contents())])
      ensures cache.Valid() && cache.history == old(cache.history)
      ensures ok ==> Valid() && frags == old(frags) + [old(buf.Contents())] && header == old(header)
      ensures ok ==> produced == old(produced) + buf.Contents() && BUF_SIZE <= buf.data.Length
    {
      hide Unframe, Obliges, Accepts, Stream.DecryptAll, Stream.Decrypt, Complete, IvCache.Refused, IvCache.Cache.Valid;
      AcceptsMore(pr, force, frags, header, produced, chunk.Partial(), chunk.counter, buf.Contents());
      ghost var f, held, counter := buf.Contents(), chunk.Partial(), chunk.counter;
      ghost var a := dctx.View();
      var err := Decrypt(pr, buf, dctx, cache, BUF_SIZE);
      DecryptKeeps(pr, a, f);
      ghost var b := Stream.Decrypt(pr, a, f, false);
      if auth {
        ok := CheckHash(pr, buf, chunk, dctx.iv, BUF_SIZE);
        if !ok {
          return;
        }
      }
      ObligesMore(pr, force, frags, header, produced, held, counter, f, buf.Contents(), chunk.Partial(), chunk.counter);
      frags, produced := frags + [f], produced + buf.Contents();
      ok := true;
    }
  }

  /** The first ciphertext leaves as many bytes as it has behind the IV. */
  lemma FirstPlain(pr: Primitives, c: bytes)
    requires |c| > pr.ivLen
    ensures var d := Stream.Decrypt(pr, Stream.Ctx(false, 0, []), c, false);
      d.Output? && |d.out| == |c| - pr.ivLen && d.ctx.init
  {
    hide XorAt, KeystreamOffset;
  }

  /** Takes n bytes off the front. */
  method Strip(buf: Buffer, n: nat)
    requires buf.Valid() && n <= buf.len
    modifies buf`len, buf.data
    ensures buf.Valid() && buf.Contents() == old(buf.Contents())[n..]
  {
    ghost var w := buf.Contents();
    buf.len := buf.len - n;
    Move(buf.data, 0, n, buf.len);
    assert buf.data[..][0..0 + buf.len] == w[n..];
  }

  /** Remote to client: `e_ctx`, with the remote's reads and the ciphertext they became. */
  class Encoder {
    const pr: Primitives
    const ectx: EncCtx
    ghost const start: Stream.Ctx
    ghost var frags: seq<bytes>
    ghost var produced: bytes

    ghost predicate Valid()
      reads this, ectx
    {
      produced == Stream.EncryptAll(pr, start, frags) && ectx.View() == CtxAfter(pr, start, frags)
    }

    constructor (pr: Primitives, iv: bytes)
      ensures Valid() && frags == [] && produced == [] && this.pr == pr && start == Stream.Ctx(false, 0, iv) && fresh(ectx)
    {
      this.pr, frags, produced, start := pr, [], [], Stream.Ctx(false, 0, iv);
      ectx := new EncCtx(iv);
    }

    method Next(buf: Buffer)
      requires Valid() && buf.Valid()
      modifies this, ectx, buf, buf.data
      ensures buf.Valid() && buf.idx == old(buf.idx) && (buf.data == old(buf.data) || fresh(buf.data))
      ensures BUF_SIZE <= buf.data.Length
      ensures Valid() && frags == old(frags) + [old(buf.Contents())] && produced == old(produced) + buf.Contents()
    {
      hide Stream.EncryptAll, CtxAfter, Stream.Encrypt;
      EncryptOneMore(pr, start, frags, buf.Contents());
      frags := frags + [buf.Contents()];
      Encrypt(pr, buf, ectx, BUF_SIZE);
      produced := produced + buf.Contents();
    }
  }

  lemma DecryptKeeps(pr: Primitives, ctx: Stream.Ctx, f: bytes)
    requires ctx.init
    ensures var b := Stream.Decrypt(pr, ctx, f, false); b.Output? && b.ctx.init && b.ctx.iv == ctx.iv
  {
  }

  /** The encryption context after some remote reads. */
  function CtxAfter(pr: Primitives, ctx: Stream.Ctx, ms: seq<bytes>): Stream.Ctx
    decreases |ms|
  {
    if ms == [] then ctx else CtxAfter(pr, Stream.Encrypt(pr, ctx, ms[0]).ctx, ms[1..])
  }

  lemma {:induction false} EncryptOneMore(pr: Primitives, ctx: Stream.Ctx, ms: seq<bytes>, m: bytes)
    ensures var e := Stream.Encrypt(pr, CtxAfter(pr, ctx, ms), m);
      Stream.EncryptAll(pr, ctx, ms + [m]) == Stream.EncryptAll(pr, ctx, ms) + e.out && CtxAfter(pr, ctx, ms + [m]) == e.ctx
    decreases |ms|
  {
    hide XorAt;
    if ms == [] {
      assert ms + [m] == [m] && [m][1..] == [];
      var e := Stream.Encrypt(pr, ctx, m);
      assert Stream.EncryptAll(pr, e.ctx, []) == [] && e.out + [] == e.out == [] + e.out;
    } else {
      var d := Stream.Encrypt(pr, ctx, ms[0]);
      EncryptOneMore(pr, d.ctx, ms[1..], m);
      assert (ms + [m])[1..] == ms[1..] + [m];
      var e := Stream.Encrypt(pr, CtxAfter(pr, ctx, ms), m);
      assert d.out + (Stream.EncryptAll(pr, d.ctx, ms[1..]) + e.out) == (d.out + Stream.EncryptAll(pr, d.ctx, ms[1..])) + e.out;
    }
  }

  // ---------------------------------------------------------------- the connection

  class Connection {
    const dec: Decoder
    const enc: Encoder
    const sbuf: Buffer
    var rbuf: Buffer

    var stage: nat
    var closed: bool
    var remote: bool
    var connected: bool
    var recvOn: bool         // server->recv_ctx->io
    var sendOn: bool         // server->send_ctx->io
    var remoteRecvOn: bool   // remote->recv_ctx->io
    var remoteSendOn: bool   // remote->send_ctx->io

    ghost var toRemote: bytes
    ghost var toClient: bytes

    /** All mutable parts are in order, large enough and distinct. */
    ghost predicate Parts()
      reads this, sbuf, rbuf, dec, dec.chunk, dec.chunk.buf, dec.chunk.buf.data, dec.dctx, enc, enc.ectx
    {
      && dec.pr.ivLen < BUF_SIZE && dec.dctx != enc.ectx
      && sbuf != rbuf && sbuf != dec.chunk.buf && rbuf != dec.chunk.buf
      && sbuf.data != rbuf.data && sbuf.data != dec.chunk.buf.data && rbuf.data != dec.chunk.buf.data
      && sbuf.Valid() && rbuf.Valid() && dec.Valid() && enc.Valid()
      && BUF_SIZE <= sbuf.data.Length && BUF_SIZE <= rbuf.data.Length
    }

    /** What is produced but not yet sent to the remote. */
    ghost function Unsent(): bytes
      reads this, sbuf, sbuf.data, rbuf, rbuf.data
    {
      if stage == 0 then [] else if !remote then sbuf.Waiting() else if remoteSendOn then rbuf.Waiting() else []
    }

    /** What is encrypted but not yet returned to the client. */
    ghost function Unreturned(): bytes
      reads this, sbuf, sbuf.data
    {
      if sendOn then sbuf.Waiting() else []
    }

    /** Which watchers run at which stage: once the remote exists, exactly one per direction. */
    ghost predicate Watchers()
      reads this, sbuf, rbuf, dec
    {
      && (!remote ==> !connected) && stage in {0, 4, 5} && (stage == 0 <==> dec.frags == [])
      && (stage == 0 ==> recvOn && !remote && !sendOn && !remoteRecvOn && !remoteSendOn)
      && (stage == 0 ==> sbuf.idx == 0 && sbuf.len <= dec.pr.ivLen && dec.produced == [])
      && (stage == 4 ==> !recvOn && !sendOn && !remoteRecvOn && remoteSendOn == remote)
      && (stage == 4 && !remote ==> sbuf.idx == 0 && sbuf.len <= BUF_SIZE)
      && (stage == 5 ==> remote && connected && recvOn != remoteSendOn && remoteRecvOn != sendOn)
      && (remoteSendOn ==> rbuf.idx + rbuf.len <= rbuf.data.Length)
      && (sendOn ==> sbuf.idx + sbuf.len <= sbuf.data.Length)
    }

    /** Conservation towards the remote: sent plus waiting is exactly what was produced. */
    ghost predicate Forwards()
      reads this, sbuf, sbuf.data, rbuf, rbuf.data, dec
    {
      toRemote + Unsent() == dec.produced
    }

    /** Conservation towards the client. */
    ghost predicate Returns()
      reads this, sbuf, sbuf.data, enc
    {
      toClient + Unreturned() == enc.produced
    }

    ghost predicate Open()
      reads this, sbuf, sbuf.data, rbuf, rbuf.data, dec, dec.chunk, dec.chunk.buf, dec.chunk.buf.data, dec.dctx, enc, enc.ectx
    {
      Parts() && Watchers() && Forwards() && Returns()
    }

    /** `new_server` and `accept_cb`. */
    constructor (pr: Primitives, force: bool, iv: bytes, cache: IvCache.Cache<bytes>)
      requires pr.ivLen < BUF_SIZE && cache.maxEntries == IV_CACHE_SIZE
      ensures Open() && !closed && stage == 0 && dec.pr == pr && dec.force == force && enc.pr == pr
      ensures toRemote == [] && toClient == [] && enc.start == Stream.Ctx(false, 0, iv) && enc.frags == []
    {
      sbuf := new Buffer(BUF_SIZE);
      rbuf := new Buffer(BUF_SIZE);
      dec := new Decoder(pr, force, cache);
      enc := new Encoder(pr, iv);
      stage, closed, remote, connected := 0, false, false, false;
      recvOn, sendOn, remoteRecvOn, remoteSendOn := true, false, false, false;
      toRemote, toClient := [], [];
    }

    /** `close_and_free_remote` and `close_and_free_server`: every watcher stops. */
    method Close()
      modifies this`closed, this`recvOn, this`sendOn, this`remoteRecvOn, this`remoteSendOn
      ensures closed && !recvOn && !sendOn && !remoteRecvOn && !remoteSendOn
    {
      closed, recvOn, sendOn, remoteRecvOn, remoteSendOn := true, false, false, false, false;
    }

    /** `remote_send_cb` once connected, when the send took n bytes: the rest keeps waiting. */
    method ForwardMore(n: nat)
      requires Open() && !closed && remoteSendOn && connected
      modifies this`toRemote, this`remoteSendOn, this`recvOn, this`stage, this`remoteRecvOn, rbuf`idx, rbuf`len
      ensures Parts()
      ensures Watchers()
      ensures Forwards() && Returns()
      ensures toRemote == old(toRemote) + First(old(Unsent()), n) && remoteSendOn == (n < |old(Unsent())|)
      ensures stage == if remoteSendOn then old(stage) else 5
    {
      hide Decoder.Valid, Encoder.Valid, Chunk.Valid, Chunk.Holds, Buffer.Waiting, Buffers.First;
      ghost var taken;
      var all;
      rbuf.WaitingLength();
      all, taken := rbuf.Consume(n);
      Assoc(toRemote, taken, rbuf.Waiting());
      toRemote := toRemote + taken;
      if all {
        assert toRemote + [] == toRemote;
        remoteSendOn, recvOn := false, true;
        if stage == 4 {
          stage, remoteRecvOn := 5, true;
        }
      }
      assert Unreturned() == old(Unreturned());
    }

    /** `remote_send_cb` once connected: the rest of the buffer goes to the remote. */
    method Drain(s: Send)
      requires Open() && !closed && remoteSendOn && connected
      modifies this, rbuf
      ensures !closed ==> Open()
      ensures closed <==> old(Unsent()) == [] || s.Broken?
      ensures toRemote == old(toRemote) + (if closed then [] else Took(s, old(Unsent()))) && toClient == old(toClient)
      ensures !closed ==> connected && remoteSendOn == (toRemote != dec.produced) && stage == if remoteSendOn then old(stage) else 5
    {
      hide Connection.Parts, Connection.Returns;
      rbuf.WaitingLength();
      Grown(toRemote, Unsent());
      if rbuf.len == 0 || s.Broken? {
        Close();
      } else if s.Sent? {
        Shrunk(toRemote, Unsent(), s.n);
        ForwardMore(s.n);
      }
    }

    /** `remote_send_cb` when the connection comes up and nothing waits. */
    method Established()
      requires Open() && !closed && remoteSendOn && !connected && rbuf.len == 0
      modifies this`connected, this`remoteSendOn, this`recvOn, this`stage, this`remoteRecvOn
      ensures Open() && connected && stage == 5 && !remoteSendOn && toRemote == dec.produced
    {
      hide Decoder.Valid, Encoder.Valid, Chunk.Valid, Chunk.Holds, Buffer.Waiting;
      rbuf.NothingWaits();
      connected, stage := true, 5;
      remoteSendOn, recvOn, remoteRecvOn := false, true, true;
      Grown(toRemote, []);
    }

    /** `remote_send_cb` when the connection comes up and something waits. */
    method Joined()
      requires Open() && !closed && remoteSendOn && !connected
      modifies this`connected
      ensures Open() && connected && Unsent() == old(Unsent())
    {
      hide Decoder.Valid, Encoder.Valid, Chunk.Valid, Chunk.Holds, Buffer.Waiting;
      connected := true;
      assert Unsent() == old(Unsent()) && Unreturned() == old(Unreturned());
    }

    /** `remote_send_cb`: connection set-up first; `peer` is the outcome of `getpeername`. */
    method RemoteSend(peer: bool, s: Send)
      requires Open() && !closed && remoteSendOn
      modifies this, rbuf
      ensures !closed ==> Open()
      ensures closed <==> if old(connected) then old(Unsent()) == [] || s.Broken? else !peer || (old(Unsent()) != [] && s.Broken?)
      ensures toRemote == old(toRemote) + (if closed then [] else Took(s, old(Unsent()))) && toClient == old(toClient)
      ensures !closed ==> connected && remoteSendOn == (toRemote != dec.produced) && stage == if remoteSendOn then old(stage) else 5
    {
      hide Connection.Parts, Connection.Watchers, Connection.Forwards, Connection.Returns, Connection.Unsent;
      UnsentLength();
      if connected {
        Drain(s);
      } else if !peer {
        Close();
      } else if rbuf.len == 0 {
        Grown(toRemote, []);
        Established();
      } else {
        Joined();
        Drain(s);
      }
    }

    lemma UnsentLength()
      requires Open() && !closed && remoteSendOn
      ensures |Unsent()| == rbuf.len
    {
      hide Decoder.Valid, Encoder.Valid, Chunk.Valid, Chunk.Holds;
      rbuf.WaitingLength();
    }

    /** `server_send_cb` when the send took n bytes: the rest keeps waiting. */
    method ReturnMore(n: nat)
      requires Open() && !closed && sendOn
      modifies this`toClient, this`sendOn, this`remoteRecvOn, sbuf`idx, sbuf`len
      ensures Parts()
      ensures Watchers()
      ensures Forwards() && Returns()
      ensures toClient == old(toClient) + First(old(Unreturned()), n) && sendOn == (n < |old(Unreturned())|)
    {
      hide Decoder.Valid, Encoder.Valid, Chunk.Valid, Chunk.Holds, Buffer.Waiting, Buffers.First;
      ghost var taken;
      var all;
      sbuf.WaitingLength();
      all, taken := sbuf.Consume(n);
      Assoc(toClient, taken, sbuf.Waiting());
      toClient := toClient + taken;
      if all {
        assert toClient + [] == toClient;
        sendOn, remoteRecvOn := false, true;
      }
      assert Unsent() == old(Unsent());
    }

    /** `server_send_cb`: the rest of what is encrypted goes back to the client. */
    method ServerSend(s: Send)
      requires Open() && !closed && sendOn
      modifies this, sbuf
      ensures !closed ==> Open()
      ensures closed <==> old(Unreturned()) == [] || s.Broken?
      ensures toClient == old(toClient) + (if closed then [] else Took(s, old(Unreturned()))) && toRemote == old(toRemote)
      ensures !closed ==> sendOn == (toClient != enc.produced)
    {
      hide Connection.Parts, Connection.Forwards;
      sbuf.WaitingLength();
      Grown(toClient, Unreturned());
      if !remote || sbuf.len == 0 || s.Broken? {
        Close();
      } else if s.Sent? {
        Shrunk(toClient, Unreturned(), s.n);
        ReturnMore(s.n);
      }
    }

    /** The end of `remote_recv_cb` when the send would block: all of it is left to `server_send_cb`. */
    method ParkReply()
      requires Parts() && Watchers() && Forwards() && !closed && remoteRecvOn
      requires enc.produced == toClient + sbuf.Contents()
      modifies this`remoteRecvOn, this`sendOn, sbuf`idx
      ensures sendOn && Parts()
      ensures Watchers()
      ensures Forwards() && Returns()
    {
      hide Decoder.Valid, Encoder.Valid, Chunk.Valid, Chunk.Holds;
      sbuf.idx := 0;
      assert sbuf.Waiting() == sbuf.Contents();
      remoteRecvOn, sendOn := false, true;
      assert Unsent() == old(Unsent());
    }

    /** The end of `remote_recv_cb` when the send took n bytes: the rest is left to `server_send_cb`. */
    method SendBack(n: nat)
      requires Parts() && Watchers() && Forwards() && !closed && remoteRecvOn
      requires enc.produced == toClient + sbuf.Contents()
      modifies this`remoteRecvOn, this`sendOn, this`toClient, sbuf`idx, sbuf`len
      ensures Parts()
      ensures Watchers()
      ensures Forwards() && Returns()
      ensures toClient == old(toClient) + First(old(sbuf.Contents()), n) && sendOn == (n < |old(sbuf.Contents())|)
    {
      hide Decoder.Valid, Encoder.Valid, Chunk.Valid, Chunk.Holds, Buffer.Waiting, Buffers.First;
      ghost var taken;
      var all;
      all, taken := sbuf.Leave(n);
      Assoc(toClient, taken, sbuf.Waiting());
      toClient := toClient + taken;
      if !all {
        remoteRecvOn, sendOn := false, true;
      }
      assert Unsent() == old(Unsent());
    }

    /** `remote_recv_cb`: a read from the remote is encrypted and as much as possible returned. */
    method RemoteRecv(r: Recv, s: Send)
      requires Open() && !closed && remoteRecvOn
      requires r.Data? ==> 0 < |r.bytes| <= BUF_SIZE
      modifies this, sbuf, sbuf.data, enc, enc.ectx
      ensures !closed ==> Open()
      ensures closed <==> r.Closed? || r.Failed? || (r.Data? && s.Broken?)
      ensures toClient == old(toClient) + (if closed || !r.Data? then [] else Took(s, Added(old(enc.produced), enc.produced)))
      ensures toRemote == old(toRemote) && (!closed ==> sendOn == (r.Data? && (s.Blocked? || toClient != enc.produced)))
      ensures old(enc.produced) <= enc.produced
      ensures enc.frags == if r.Data? then old(enc.frags) + [r.bytes] else old(enc.frags)
    {
      hide Decoder.Valid, Encoder.Valid, Chunk.Valid, Chunk.Holds, Buffer.Waiting;
      if r.Again? {
        return;
      }
      if !r.Data? {
        Close();
        return;
      }
      TakeReply(r.bytes);
      AddedIs(toClient, sbuf.Contents());
      match s
      case Broken => Close();
      case Blocked => ParkReply();
      case Sent(n) =>
        Shrunk(toClient, sbuf.Contents(), n);
        SendBack(n);
    }

    /** A read from the remote is encrypted in the server's buffer. */
    method TakeReply(x: bytes)
      requires Open() && !closed && remoteRecvOn && 0 < |x| <= BUF_SIZE
      modifies sbuf, sbuf.data, enc, enc.ectx
      ensures Parts()
      ensures Watchers()
      ensures Forwards() && old(enc.produced) == toClient
      ensures enc.produced == toClient + sbuf.Contents() && enc.frags == old(enc.frags) + [x]
    {
      hide Decoder.Valid, Encoder.Valid, Chunk.Valid, Chunk.Holds, Buffer.Waiting;
      Fill(sbuf, 0, x);
      assert sbuf.Contents() == x;
      enc.Next(sbuf);
      assert Unsent() == old(Unsent());
      assert toClient + [] == toClient;
    }

    /** `connect_to_remote`: the new remote inherits what waits in the server's buffer. */
    method Connect()
      requires Open() && !closed && stage == 4 && !remote
      modifies this`rbuf, this`remote, this`connected, this`remoteSendOn, sbuf`idx, sbuf`len
      ensures Parts()
      ensures Watchers()
      ensures Forwards() && Returns()
      ensures remote && !connected && fresh(rbuf) && fresh(rbuf.data) && Unsent() == old(Unsent())
    {
      hide Decoder.Valid, Encoder.Valid, Chunk.Valid, Chunk.Holds, Buffer.Waiting;
      rbuf := Inherit(sbuf);
      remote, connected, remoteSendOn := true, false, true;
    }

    /** `server_resolve_cb`: the lookup that stage 4 waits for has ended. */
    method Resolved(found: bool, connects: bool)
      requires Open() && !closed && stage == 4 && !remote
      modifies this, sbuf
      ensures closed <==> !(found && connects)
      ensures !closed ==> Open() && remote && !connected && Unsent() == old(Unsent())
      ensures toRemote == old(toRemote) && toClient == old(toClient)
    {
      if found && connects {
        Connect();
      } else {
        Close();
      }
    }

    /**
     `server_recv_cb` at stage 0: bytes are collected until they exceed the IV, then the header is
     dealt with and a connection or a lookup started.
     */
    method Handshake(r: Recv, lookup: bool, connects: bool)
      requires Open() && dec.cache.Valid() && !closed && recvOn && stage == 0
      requires r.Data? ==> 0 < |r.bytes| <= BUF_SIZE - sbuf.len
      modifies this, sbuf, sbuf.data, dec, dec.chunk, dec.chunk.buf, dec.chunk.buf.data, dec.dctx, dec.cache
      ensures !closed ==> Open()
      ensures toRemote == old(toRemote) && toClient == old(toClient) && dec.cache.Valid()
      ensures r.Data? ==> var f := old(sbuf.Contents()) + r.bytes;
        if |f| <= dec.pr.ivLen then !closed && stage == 0 && sbuf.Contents() == f && dec.cache.history == old(dec.cache.history)
        else
          && dec.cache.history == old(dec.cache.history) + [f[..dec.pr.ivLen]]
          && (!closed <==> Admissible(dec.pr, dec.force, f, old(dec.cache.history)) && (lookup || connects))
          && (!closed ==> stage == 4 && remote == !lookup && !connected && dec.frags == [f])
      ensures !r.Data? ==> (closed <==> !r.Again?) && stage == 0 && dec.cache.history == old(dec.cache.history)
    {
      hide Decoder.Valid, Encoder.Valid, Chunk.Valid, Chunk.Holds, Buffer.Waiting, IvCache.Refused, IvCache.Cache.Valid, Accepts;
      if r.Again? {
        return;
      }
      if !r.Data? {
        Close();
        return;
      }
      assert toRemote == [] && toClient == enc.produced;
      Fill(sbuf, sbuf.len, r.bytes);
      if sbuf.len <= dec.pr.ivLen {
        return;
      }
      var ok := dec.First(sbuf);
      if !ok || (!lookup && !connects) {
        Close();
        return;
      }
      Admit();
      if !lookup {
        Connect();
      }
    }

    /** The header was accepted: stage 4 begins with the first payload waiting. */
    method Admit()
      requires Parts() && Returns() && !closed && stage == 0 && !remote && !connected && !sendOn && !remoteRecvOn && !remoteSendOn
      requires dec.frags != [] && toRemote == [] && dec.produced == sbuf.Contents() && sbuf.idx == 0 && sbuf.len <= BUF_SIZE
      modifies this`stage, this`recvOn
      ensures Open() && stage == 4
    {
      hide Decoder.Valid, Encoder.Valid, Chunk.Valid, Chunk.Holds;
      stage, recvOn := 4, false;
      assert sbuf.Waiting() == sbuf.Contents() && [] + sbuf.Contents() == sbuf.Contents();
    }

    /** Stage 5 of `server_recv_cb` when the send would block: all of it is left to `remote_send_cb`. */
    method ParkPayload()
      requires Parts() && Watchers() && Returns() && !closed && stage == 5 && recvOn
      requires dec.produced == toRemote + rbuf.Contents()
      modifies this`recvOn, this`remoteSendOn, rbuf`idx
      ensures remoteSendOn && Parts()
      ensures Watchers()
      ensures Forwards() && Returns()
    {
      hide Decoder.Valid, Encoder.Valid, Chunk.Valid, Chunk.Holds;
      rbuf.idx := 0;
      assert rbuf.Waiting() == rbuf.Contents();
      recvOn, remoteSendOn := false, true;
      assert Unreturned() == old(Unreturned());
    }

    /** Stage 5 of `server_recv_cb` when the send took n bytes: the rest is left to `remote_send_cb`. */
    method SendOut(n: nat)
      requires Parts() && Watchers() && Returns() && !closed && stage == 5 && recvOn
      requires dec.produced == toRemote + rbuf.Contents()
      modifies this`recvOn, this`remoteSendOn, this`toRemote, rbuf`idx, rbuf`len
      ensures Parts()
      ensures Watchers()
      ensures Forwards() && Returns()
      ensures toRemote == old(toRemote) + First(old(rbuf.Contents()), n) && remoteSendOn == (n < |old(rbuf.Contents())|)
    {
      hide Decoder.Valid, Encoder.Valid, Chunk.Valid, Chunk.Holds, Buffer.Waiting, Buffers.First;
      ghost var taken;
      var all;
      all, taken := rbuf.Leave(n);
      Assoc(toRemote, taken, rbuf.Waiting());
      toRemote := toRemote + taken;
      if !all {
        recvOn, remoteSendOn := false, true;
      }
      assert Unreturned() == old(Unreturned());
    }

    /** `server_recv_cb` at stage 5: a read from the client is decoded and as much as possible forwarded. */
    method ServerRecv(r: Recv, s: Send)
      requires Open() && dec.cache.Valid() && !closed && recvOn && stage == 5
      requires r.Data? ==> 0 < |r.bytes| <= BUF_SIZE
      modifies this, rbuf, rbuf.data, dec, dec.chunk, dec.chunk.buf, dec.chunk.buf.data, dec.dctx, dec.cache
      ensures !closed ==> Open()
      ensures closed <==> r.Closed? || r.Failed? ||
                          (r.Data? && (s.Broken? || !Accepts(dec.pr, dec.force, old(dec.frags) + [r.bytes])))
      ensures toRemote == old(toRemote) + (if closed || !r.Data? then [] else Took(s, Added(old(dec.produced), dec.produced)))
      ensures !closed ==> old(dec.produced) <= dec.produced && remoteSendOn == (r.Data? && (s.Blocked? || toRemote != dec.produced))
      ensures toClient == old(toClient) && dec.cache.Valid() && dec.cache.history == old(dec.cache.history)
      ensures !closed ==> dec.frags == if r.Data? then old(dec.frags) + [r.bytes] else old(dec.frags)
    {
      hide Decoder.Valid, Encoder.Valid, Chunk.Valid, Chunk.Holds, Buffer.Waiting, Connection.Parts, Connection.Watchers,
        Connection.Returns, Accepts, IvCache.Cache.Valid;
      NothingUnsent();
      if r.Again? {
        return;
      }
      if !r.Data? {
        Close();
        return;
      }
      var ok := TakePayload(r.bytes);
      if !ok {
        Close();
        return;
      }
      AddedIs(toRemote, rbuf.Contents());
      match s
      case Broken => Close();
      case Blocked => ParkPayload();
      case Sent(n) =>
        Shrunk(toRemote, rbuf.Contents(), n);
        SendOut(n);
    }

    /** The client is read only when nothing waits for the remote. */
    lemma NothingUnsent()
      requires Open() && !closed && recvOn && stage == 5
      ensures !remoteSendOn && toRemote == dec.produced
    {
      hide Decoder.Valid, Encoder.Valid, Chunk.Valid, Chunk.Holds;
      assert toRemote + [] == toRemote;
    }

    /** A read from the client is decoded in the remote's buffer. */
    method TakePayload(x: bytes) returns (ok: bool)
      requires Open() && dec.cache.Valid() && !closed && recvOn && stage == 5 && 0 < |x| <= BUF_SIZE
      modifies rbuf, rbuf.data, dec, dec.chunk, dec.chunk.buf, dec.chunk.buf.data, dec.dctx, dec.cache
      ensures ok <==> Accepts(dec.pr, dec.force, old(dec.frags) + [x])
      ensures dec.cache.Valid() && dec.cache.history == old(dec.cache.history)
      ensures old(dec.produced) == toRemote
      ensures ok ==> Parts() && rbuf.Valid()
      ensures ok ==> Watchers()
      ensures ok ==> Returns() && dec.produced == toRemote + rbuf.Contents() && dec.frags == old(dec.frags) + [x]
    {
      hide Decoder.Valid, Encoder.Valid, Chunk.Valid, Chunk.Holds, Buffer.Waiting;
      assert toRemote + [] == toRemote;
      Fill(rbuf, 0, x);
      assert rbuf.Contents() == x;
      ok := dec.Next(rbuf);
      assert Unreturned() == old(Unreturned());
    }
  }

  /** What came on top of a. */
  function Added(a: bytes, b: bytes): bytes { if |a| <= |b| then b[|a|..] else [] }

  lemma AddedIs(a: bytes, x: bytes)
    ensures Added(a, a + x) == x && a <= a + x
  {
  }

  lemma Grown(a: bytes, x: bytes)
    ensures a + x == a <==> x == []
  {
    assert x == [] ==> a + x == a;
  }

  /** Something is left exactly if fewer bytes were taken than offered. */
  lemma Shrunk(a: bytes, x: bytes, n: nat)
    ensures a + First(x, n) == a + x <==> n >= |x|
  {
  }

  /** A remote's buffer that takes over what waits in the server's. */
  method Inherit(src: Buffer) returns (b: Buffer)
    requires src.Valid() && src.idx + src.len <= src.data.Length && src.len <= BUF_SIZE
    modifies src`idx, src`len
    ensures fresh(b) && fresh(b.data) && b.Valid() && b.data.Length == BUF_SIZE && src.Valid()
    ensures b.idx + b.len <= b.data.Length && b.Waiting() == old(src.Waiting())
  {
    ghost var w := src.Waiting();
    b := new Buffer(BUF_SIZE);
    if src.len > 0 {
      Copy(b.data, 0, src.data, src.idx, src.len);
      b.len, b.idx := src.len, 0;
      assert b.data[..][0..0 + b.len] == w;
      src.len, src.idx := 0, 0;
    }
  }

  /** What `recv` leaves in a buffer from position `at` on. */
  method Fill(buf: Buffer, at: nat, x: bytes)
    requires at <= buf.data.Length && at + |x| <= buf.data.Length
    modifies buf`len, buf.data
    ensures buf.Valid() && buf.len == at + |x| && buf.Contents() == old(buf.data[..at]) + x
  {
    Put(buf.data, at, x);
    buf.len := at + |x|;
    assert buf.data[..][..at] == old(buf.data[..at]);
    assert buf.data[..][at..at + |x|] == x;
  }
}
