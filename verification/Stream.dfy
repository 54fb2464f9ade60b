/**
 `ss_encrypt` and `ss_decrypt` for the stream ciphers (SALSA20 and later) as functions on the
 cipher context, and what a whole connection computes.
 */
module Stream {
  import opened Basics
  import opened Crypto

  /** `enc_ctx_t`: whether the IV was exchanged, the bytes processed so far, and the IV. */
  datatype Ctx = Ctx(init: bool, counter: nat, iv: bytes)

  datatype Result = Output(out: bytes, ctx: Ctx) | Rejected

  /** One call of `ss_encrypt`: the first output starts with the IV. */
  function Encrypt(pr: Primitives, ctx: Ctx, m: bytes): (r: Result)
    ensures r.Output?
  {
    var start := if ctx.init then ctx.counter else 0;
    var body := XorAt(pr, ctx.iv, KeystreamOffset(pr.cipher, start), m);
    Output(if ctx.init then body else ctx.iv + body, Ctx(true, start + |m|, ctx.iv))
  }

  /** One call of `ss_decrypt`; `replayed` is the answer of the IV cache on a first fragment. */
  function Decrypt(pr: Primitives, ctx: Ctx, c: bytes, replayed: bool): Result
    requires ctx.init || |c| > pr.ivLen
  {
    if ctx.init then
      Output(XorAt(pr, ctx.iv, KeystreamOffset(pr.cipher, ctx.counter), c), ctx.(counter := ctx.counter + |c|))
    else if replayed then
      Rejected
    else
      var iv, body := c[..pr.ivLen], c[pr.ivLen..];
      Output(XorAt(pr, iv, KeystreamOffset(pr.cipher, 0), body), Ctx(true, |body|, iv))
  }

  /** The keystream is not exhausted: 2^32 blocks for chacha20-ietf, a 64-bit byte counter otherwise. */
  predicate InRange(m: Cipher, n: nat) {
    if m.ChaCha20Ietf? then n < 0x40_0000_0000 else n < 0x1_0000_0000_0000_0000
  }

  function EncryptAll(pr: Primitives, ctx: Ctx, ms: seq<bytes>): bytes
    decreases |ms|
  {
    if ms == [] then [] else
    var r := Encrypt(pr, ctx, ms[0]);
    r.out + EncryptAll(pr, r.ctx, ms[1..])
  }

  /** Feeding a decryption context fragment by fragment. */
  function DecryptAll(pr: Primitives, ctx: Ctx, cs: seq<bytes>): Result
    requires ctx.init || cs == [] || |cs[0]| > pr.ivLen
    decreases |cs|
  {
    if cs == [] then Output([], ctx) else
    var r := Decrypt(pr, ctx, cs[0], false);
    assert r.ctx.init;
    var rest := DecryptAll(pr, r.ctx, cs[1..]);
    if rest.Rejected? then Rejected else Output(r.out + rest.out, rest.ctx)
  }

  lemma {:induction false} EncryptAllFrom(pr: Primitives, ctx: Ctx, ms: seq<bytes>)
    requires ctx.init && InRange(pr.cipher, ctx.counter + |Flatten(ms)|)
    ensures EncryptAll(pr, ctx, ms) == XorAt(pr, ctx.iv, ctx.counter, Flatten(ms))
    decreases |ms|
  {
    hide XorAt;
    if ms != [] {
      var rest := Flatten(ms[1..]);
      assert |Flatten(ms)| == |ms[0]| + |rest|;
      EncryptAllFrom(pr, ctx.(counter := ctx.counter + |ms[0]|), ms[1..]);
      XorAppend(pr, ctx.iv, ctx.counter, ms[0], rest);
    }
  }

  /** The first call only puts the IV in front. */
  lemma EncryptFirst(pr: Primitives, iv: bytes, counter: nat, ms: seq<bytes>)
    requires ms != []
    ensures EncryptAll(pr, Ctx(false, counter, iv), ms) == iv + EncryptAll(pr, Ctx(true, 0, iv), ms)
  {
    var body := XorAt(pr, iv, KeystreamOffset(pr.cipher, 0), ms[0]);
    var rest := EncryptAll(pr, Ctx(true, |ms[0]|, iv), ms[1..]);
    assert EncryptAll(pr, Ctx(false, counter, iv), ms) == (iv + body) + rest;
    assert EncryptAll(pr, Ctx(true, 0, iv), ms) == body + rest;
    assert (iv + body) + rest == iv + (body + rest);
  }

  /** However the plaintext is cut, the wire carries the IV and plaintext XOR keystream from offset 0. */
  lemma EncryptIgnoresCuts(pr: Primitives, iv: bytes, counter: nat, ms: seq<bytes>)
    requires ms != [] && InRange(pr.cipher, |Flatten(ms)|)
    ensures EncryptAll(pr, Ctx(false, counter, iv), ms) == iv + XorAt(pr, iv, 0, Flatten(ms))
  {
    EncryptFirst(pr, iv, counter, ms);
    EncryptAllFrom(pr, Ctx(true, 0, iv), ms);
  }

  lemma {:induction false} DecryptAllFrom(pr: Primitives, ctx: Ctx, cs: seq<bytes>)
    requires ctx.init && InRange(pr.cipher, ctx.counter + |Flatten(cs)|)
    ensures DecryptAll(pr, ctx, cs) ==
      Output(XorAt(pr, ctx.iv, ctx.counter, Flatten(cs)), ctx.(counter := ctx.counter + |Flatten(cs)|))
    decreases |cs|
  {
    hide XorAt;
    if cs != [] {
      var rest := Flatten(cs[1..]);
      assert |Flatten(cs)| == |cs[0]| + |rest|;
      DecryptAllFrom(pr, ctx.(counter := ctx.counter + |cs[0]|), cs[1..]);
      XorAppend(pr, ctx.iv, ctx.counter, cs[0], rest);
    }
  }

  /** However the ciphertext is cut, the same bytes come out. */
  lemma DecryptIgnoresCuts(pr: Primitives, counter: nat, stale: bytes, cs: seq<bytes>)
    requires cs != [] && |cs[0]| > pr.ivLen && |Flatten(cs)| >= pr.ivLen && InRange(pr.cipher, |Flatten(cs)| - pr.ivLen)
    ensures var all := Flatten(cs);
      DecryptAll(pr, Ctx(false, counter, stale), cs) ==
      Output(XorAt(pr, all[..pr.ivLen], 0, all[pr.ivLen..]), Ctx(true, |all| - pr.ivLen, all[..pr.ivLen]))
  {
    var all := Flatten(cs);
    var iv, body := cs[0][..pr.ivLen], cs[0][pr.ivLen..];
    var r := Decrypt(pr, Ctx(false, counter, stale), cs[0], false);
    DecryptAllFrom(pr, r.ctx, cs[1..]);
    XorAppend(pr, iv, 0, body, Flatten(cs[1..]));
    assert all[..pr.ivLen] == iv && all[pr.ivLen..] == body + Flatten(cs[1..]);
  }

  /** A prefix of the wire decrypts to that much of the plaintext. */
  lemma PrefixDecrypts(pr: Primitives, iv: bytes, plain: bytes, all: bytes)
    requires |iv| <= |all| && all <= iv + XorAt(pr, iv, 0, plain)
    ensures |all| <= |iv| + |plain|
    ensures all[..|iv|] == iv && XorAt(pr, iv, 0, all[|iv|..]) == plain[..|all| - |iv|]
  {
    var k := |all| - |iv|;
    XorAppend(pr, iv, 0, plain[..k], plain[k..]);
    assert plain[..k] + plain[k..] == plain;
    assert all[|iv|..] == XorAt(pr, iv, 0, plain[..k]);
    XorTwice(pr, iv, 0, plain[..k]);
  }

  /**
   Any two segmentations invert each other: whatever part of the wire has arrived, cut in any way,
   decrypts to that part of the plaintext.
   */
  lemma DecryptInvertsEncrypt(pr: Primitives, iv: bytes, ms: seq<bytes>, cs: seq<bytes>, n: nat, m: nat, x: bytes)
    requires |iv| == pr.ivLen && ms != [] && InRange(pr.cipher, |Flatten(ms)|)
    requires cs != [] && |cs[0]| > pr.ivLen && Flatten(cs) <= EncryptAll(pr, Ctx(false, n, iv), ms)
    ensures |iv| <= |Flatten(cs)| <= |iv| + |Flatten(ms)|
    ensures DecryptAll(pr, Ctx(false, m, x), cs) ==
      Output(Flatten(ms)[..|Flatten(cs)| - |iv|], Ctx(true, |Flatten(cs)| - |iv|, iv))
  {
    EncryptIgnoresCuts(pr, iv, n, ms);
    PrefixDecrypts(pr, iv, Flatten(ms), Flatten(cs));
    DecryptIgnoresCuts(pr, m, x, cs);
  }
}
