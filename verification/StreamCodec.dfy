/**
 `ss_encrypt` and `ss_decrypt` (SALSA20 and later) as they work on buffers: the text is shifted by
 zero padding up to the block boundary, run through the block cipher stream and shifted back.
 */
module StreamCodec {
  import opened Basics
  import opened Crypto
  import opened Buffers
  import opened IvCache
  import Stream

  /** `enc_ctx_t`. */
  class EncCtx {
    var init: bool
    var counter: nat
    var iv: bytes

    constructor (iv: bytes)
      ensures View() == Stream.Ctx(false, 0, iv)
    {
      init, counter, this.iv := false, 0, iv;
    }

    function View(): Stream.Ctx
      reads this
    {
      Stream.Ctx(init, counter, iv)
    }
  }

  /** `crypto_stream_xor_ic` from one array into another. */
  method XorInto(pr: Primitives, dst: array<byte>, at: nat, src: array<byte>, from: nat, n: nat, iv: bytes, ic: nat)
    requires dst != src && at + n <= dst.Length && from + n <= src.Length
    modifies dst
    ensures dst[..] == Splice(old(dst[..]), at, XorIc(pr, iv, ic, src[from..from + n]))
  {
    Put(dst, at, XorIc(pr, iv, ic, src[from..from + n]));
  }

  lemma Adjacent(s: bytes, t: bytes, at: nat, x: bytes, y: bytes)
    requires Laid(s, t, at, x, y, |s|)
    ensures |t| == |s| && at + (|x| + |y|) <= |t| && t[..at] == s[..at] && t[at..at + (|x| + |y|)] == x + y
  {
    assert t[at..at + (|x| + |y|)] == t[at..at + |x|] + t[at + |x|..at + |x| + |y|];
  }

  lemma NoZeros(m: bytes)
    ensures Zeros(0) + m == m
  {
  }

  /** Shifts n bytes right by `padding` and zeroes the gap. */
  method Pad(a: array<byte>, from: nat, n: nat, padding: nat)
    requires from + (padding + n) <= a.Length
    modifies a
    ensures a[..][..from] == old(a[..])[..from]
    ensures a[..][from..from + (padding + n)] == Zeros(padding) + old(a[..])[from..from + n]
  {
    hide Splice, Zeros, Laid;
    if padding != 0 {
      ghost var was, m := a[..], a[from..from + n];
      Move(a, from + padding, from, n);
      Put(a, from, Zeros(padding));
      SpliceTwice(was, from, Zeros(padding), m, a.Length);
      Adjacent(was, a[..], from, Zeros(padding), m);
    } else {
      NoZeros(a[..][from..from + n]);
    }
  }

  /** Drops `padding` bytes in front of n bytes. */
  method Unpad(a: array<byte>, at: nat, n: nat, padding: nat)
    requires at + (padding + n) <= a.Length
    modifies a
    ensures a[..][..at] == old(a[..])[..at]
    ensures a[..][at..at + n] == old(a[..])[at..at + (padding + n)][padding..]
  {
    hide Splice;
    if padding != 0 {
      Move(a, at, at + padding, n);
    }
  }

  /**
   The padded call shared by both directions: `m` stands in `src` from `from` on, its XOR with the
   keystream at the context's byte counter is left in `dst` from `at` on.
   */
  method AlignedXor(pr: Primitives, dst: array<byte>, at: nat, src: array<byte>, from: nat, n: nat, iv: bytes, counter: nat)
    requires dst != src && at + (counter % 64 + n) <= dst.Length && from + (counter % 64 + n) <= src.Length
    modifies dst, src
    ensures dst[..][..at] == old(dst[..])[..at]
    ensures dst[..][at..at + n] == XorAt(pr, iv, KeystreamOffset(pr.cipher, counter), old(src[..])[from..from + n])
    ensures src[..][..from] == old(src[..])[..from]
  {
    hide XorAt, XorIc, KeystreamOffset, Splice, Zeros;
    var padding := counter % 64;
    ghost var m := src[..][from..from + n];
    Pad(src, from, n, padding);
    XorInto(pr, dst, at, src, from, padding + n, iv, counter / 64);
    ghost var x := XorIc(pr, iv, counter / 64, Zeros(padding) + m);
    assert src[from..from + (padding + n)] == src[..][from..from + (padding + n)];
    assert dst[..][at..at + (padding + n)] == x;
    Unpad(dst, at, n, padding);
    PaddedXor(pr, iv, counter, m);
  }

  /**
   The middle of both directions: a scratch buffer receives `head` and, behind it, the text from
   `from` on XOR the keystream.  The text itself is left padded and of no further use.
   */
  method Transform(pr: Primitives, head: bytes, text: Buffer, from: nat, iv: bytes, counter: nat, capacity: nat)
    returns (tmp: Buffer)
    requires text.Valid() && from <= text.len
    modifies text`data, text.data
    ensures fresh(tmp) && fresh(tmp.data) && tmp.Valid() && tmp.data != text.data
    ensures text.Valid() && (text.data == old(text.data) || fresh(text.data))
    ensures tmp.Contents() == head + XorAt(pr, iv, KeystreamOffset(pr.cipher, counter), old(text.Contents()[from..]))
  {
    hide XorAt, KeystreamOffset;
    var n, padding := text.len - from, counter % 64;
    Extend(text, from, padding, capacity);
    tmp := Scratch(head, (padding + n) * 2, capacity);
    AlignedXor(pr, tmp.data, |head|, text.data, from, n, iv, counter);
    tmp.len := |head| + n;
    Joined(tmp.data[..], |head|, n);
  }

  /** Room for the padding behind the text. */
  method Extend(text: Buffer, from: nat, padding: nat, capacity: nat)
    requires text.Valid() && from <= text.len
    modifies text`data
    ensures text.len + padding <= text.data.Length && (text.data == old(text.data) || fresh(text.data))
    ensures text.data[..][from..text.len] == old(text.Contents()[from..])
  {
    ghost var was := text.data[..];
    if padding != 0 {
      text.Realloc(text.len + padding, capacity);
    }
    assert text.data[..][..|was|] == was;
    Within(was, text.data[..], from, text.len);
  }

  lemma Within(a: bytes, b: bytes, i: nat, j: nat)
    requires i <= j <= |a| <= |b| && b[..|a|] == a
    ensures b[i..j] == a[i..j] == a[..j][i..]
  {
    forall k | i <= k < j ensures b[k] == a[k] {
      assert b[..|a|][k] == b[k];
    }
  }

  /** A scratch buffer that starts with `head` and has room for n bytes more. */
  method Scratch(head: bytes, n: nat, capacity: nat) returns (tmp: Buffer)
    ensures fresh(tmp) && fresh(tmp.data) && |head| + n <= tmp.data.Length && tmp.data[..][..|head|] == head
  {
    hide Splice;
    tmp := new Buffer(0);
    tmp.Realloc(|head| + n, capacity);
    Put(tmp.data, 0, head);
    assert tmp.data[..][0..0 + |head|] == head;
  }

  lemma Joined(s: bytes, i: nat, n: nat)
    requires i + n <= |s|
    ensures s[..i + n] == s[..i] + s[i..i + n]
  {
  }

  /** The closing `brealloc` and `memcpy`. */
  method Replace(text: Buffer, tmp: Buffer, capacity: nat)
    requires text != tmp && text.data != tmp.data && tmp.Valid()
    modifies text, text.data
    ensures text.Valid() && text.Contents() == old(tmp.Contents()) && text.idx == old(text.idx)
    ensures capacity <= text.data.Length && (text.data == old(text.data) || fresh(text.data))
  {
    text.Realloc(tmp.len, capacity);
    Copy(text.data, 0, tmp.data, 0, tmp.len);
    text.len := tmp.len;
    assert text.data[..][0..0 + text.len] == text.data[..text.len];
  }

  /**
   `ss_encrypt`: the buffer's plaintext is replaced by the ciphertext, preceded by the IV on the
   first call.
   */
  method Encrypt(pr: Primitives, plain: Buffer, ctx: EncCtx, capacity: nat)
    requires plain.Valid()
    modifies plain, plain.data, ctx
    ensures plain.Valid() && plain.idx == old(plain.idx) && (plain.data == old(plain.data) || fresh(plain.data))
    ensures capacity <= plain.data.Length
    ensures plain.Contents() == Stream.Encrypt(pr, old(ctx.View()), old(plain.Contents())).out
    ensures ctx.View() == Stream.Encrypt(pr, old(ctx.View()), old(plain.Contents())).ctx
  {
    hide XorAt, KeystreamOffset;
    var head := [];
    if !ctx.init {
      head := ctx.iv;
      ctx.counter := 0;
      ctx.init := true;
    }
    var n := plain.len;
    assert plain.Contents()[0..] == plain.Contents();
    var cipher := Transform(pr, head, plain, 0, ctx.iv, ctx.counter, capacity);
    ctx.counter := ctx.counter + n;
    Replace(plain, cipher, capacity);
  }

  /** The cache `enc_key_init` creates for all connections. */
  const IV_CACHE_SIZE: nat := 256

  method NewIvCache() returns (cache: Cache<bytes>)
    ensures fresh(cache) && cache.Valid() && cache.maxEntries == IV_CACHE_SIZE && cache.history == []
  {
    cache := new Cache<bytes>(IV_CACHE_SIZE);
  }

  /**
   `ss_decrypt`: on the first call the leading IV is taken off, and refused exactly if it was
   presented before with too few others since.  The caller delivers more than the IV on the first call.
   */
  method Decrypt(pr: Primitives, cipher: Buffer, ctx: EncCtx, cache: Cache<bytes>, capacity: nat) returns (err: bool)
    requires cipher.Valid() && (ctx.init || cipher.len > pr.ivLen) && cache.Valid()
    modifies cipher, cipher.data, ctx, cache
    ensures cipher.Valid() && (cipher.data == old(cipher.data) || fresh(cipher.data))
    ensures err == old(!ctx.init && Refused(cache.history, cipher.Contents()[..pr.ivLen], cache.maxEntries))
    ensures var r := Stream.Decrypt(pr, old(ctx.View()), old(cipher.Contents()), err);
      if err then r.Rejected? && cipher.len == 0
      else r.Output? && cipher.Contents() == r.out && ctx.View() == r.ctx && cipher.idx == old(cipher.idx)
    ensures !err ==> capacity <= cipher.data.Length
    ensures cache.Valid()
    ensures cache.history == old(cache.history) + (if old(ctx.init) then [] else [old(cipher.Contents())[..pr.ivLen]])
  {
    hide XorAt, KeystreamOffset, Refused, Cache.Valid;
    ghost var all := cipher.Contents();
    var ivLen := 0;
    if !ctx.init {
      ivLen := pr.ivLen;
      var iv := cipher.data[..ivLen];
      assert iv == all[..ivLen];
      ctx.iv := iv;
      ctx.counter := 0;
      ctx.init := true;
      var replayed := cache.Present(iv);
      if replayed {
        cipher.len, cipher.idx := 0, 0;
        return true;
      }
    }
    assert ivLen == 0 ==> all[ivLen..] == all;
    var n := cipher.len - ivLen;
    var plain := Transform(pr, [], cipher, ivLen, ctx.iv, ctx.counter, capacity);
    ctx.counter := ctx.counter + n;
    Replace(cipher, plain, capacity);
    err := false;
  }
}
