/**
 The primitives the stream codec stands on.  HMAC-SHA1 and the keystream are parameters: nothing is
 assumed of HMAC but the 20-byte digest, and of the keystream only that a call with block counter
 `ic` uses keystream byte `64 * ic + i` for message byte `i`.
 */
module Crypto {
  import opened Basics

  type Digest = d: bytes | |d| == 20 witness seq(20, _ => 0)

  /** The cipher key is folded into `stream`; `ivLen` and `key` are `enc_iv_len` and `enc_key`. */
  datatype Primitives = Primitives(
    hmac: (bytes, bytes) -> Digest, stream: (bytes, nat) -> byte, ivLen: nat, key: bytes, cipher: Cipher)

  datatype Cipher = Salsa20 | ChaCha20 | ChaCha20Ietf

  /** `crypto_stream_chacha20_ietf_xor_ic` receives the block counter truncated to 32 bits. */
  function BlockCounter(m: Cipher, ic: nat): nat {
    if m.ChaCha20Ietf? then ic % 0x1_0000_0000 else ic
  }

  /** Exclusive or of the low `bits` bits. */
  function XorBits(a: nat, b: nat, bits: nat): (r: nat) {
    if bits == 0 then 0 else 2 * XorBits(a / 2, b / 2, bits - 1) + (a + b) % 2
  }

  lemma {:induction false} XorBitsRange(a: nat, b: nat, bits: nat)
    ensures XorBits(a, b, bits) < Pow2(bits)
  {
    if bits > 0 {
      XorBitsRange(a / 2, b / 2, bits - 1);
    }
  }

  lemma ParityTwice(a: nat, b: nat, q: nat)
    ensures var r := 2 * q + (a + b) % 2; r / 2 == q && (r + b) % 2 == a % 2
  {
  }

  lemma {:induction false} XorInvolution(a: nat, b: nat, bits: nat)
    requires a < Pow2(bits)
    ensures XorBits(XorBits(a, b, bits), b, bits) == a
  {
    if bits > 0 {
      XorInvolution(a / 2, b / 2, bits - 1);
      var q := XorBits(a / 2, b / 2, bits - 1);
      ParityTwice(a, b, q);
    }
  }

  function Xor(a: byte, b: byte): (r: byte)
  {
    XorBitsRange(a, b, 8);
    assert Pow2(4) == 16 && Pow2(8) == 256;
    XorBits(a, b, 8)
  }

  lemma XorTwiceByte(a: byte, b: byte)
    ensures Xor(Xor(a, b), b) == a
  {
    assert Pow2(4) == 16 && Pow2(8) == 256;
    XorInvolution(a, b, 8);
  }

  /** m XOR keystream from keystream offset `off` on. */
  function XorAt(pr: Primitives, iv: bytes, off: nat, m: bytes): (r: bytes)
    ensures |r| == |m|
    decreases |m|
  {
    if m == [] then [] else [Xor(m[0], pr.stream(iv, off))] + XorAt(pr, iv, off + 1, m[1..])
  }

  lemma {:induction false} XorIndex(pr: Primitives, iv: bytes, off: nat, m: bytes, i: nat)
    requires i < |m|
    ensures XorAt(pr, iv, off, m)[i] == Xor(m[i], pr.stream(iv, off + i))
    decreases i
  {
    if i > 0 {
      XorIndex(pr, iv, off + 1, m[1..], i - 1);
    }
  }

  /** `crypto_stream_xor_ic`. */
  function XorIc(pr: Primitives, iv: bytes, ic: nat, m: bytes): (r: bytes)
    ensures |r| == |m|
  {
    XorAt(pr, iv, 64 * BlockCounter(pr.cipher, ic), m)
  }

  lemma {:induction false} XorTwice(pr: Primitives, iv: bytes, off: nat, m: bytes)
    ensures XorAt(pr, iv, off, XorAt(pr, iv, off, m)) == m
    decreases |m|
  {
    if m != [] {
      XorTwiceByte(m[0], pr.stream(iv, off));
      XorTwice(pr, iv, off + 1, m[1..]);
      assert XorAt(pr, iv, off, m)[1..] == XorAt(pr, iv, off + 1, m[1..]);
    }
  }

  lemma {:induction false} XorAppend(pr: Primitives, iv: bytes, off: nat, a: bytes, b: bytes)
    ensures XorAt(pr, iv, off, a + b) == XorAt(pr, iv, off, a) + XorAt(pr, iv, off + |a|, b)
    decreases |a|
  {
    if a == [] {
      assert a + b == b;
    } else {
      XorAppend(pr, iv, off + 1, a[1..], b);
      assert (a + b)[1..] == a[1..] + b;
    }
  }

  function Zeros(n: nat): (z: bytes)
    ensures |z| == n
  {
    seq(n, _ => 0)
  }

  /** The keystream offset a context with byte counter `c` really uses. */
  function KeystreamOffset(m: Cipher, c: nat): nat {
    if m.ChaCha20Ietf? then c % 0x40_0000_0000 else c
  }

  lemma BlockSplit(m: Cipher, c: nat)
    ensures 64 * BlockCounter(m, c / 64) + c % 64 == KeystreamOffset(m, c)
  {
    if m.ChaCha20Ietf? {
      var q := c / 64;
      BlockLow(c, q / 0x1_0000_0000, q % 0x1_0000_0000, c % 64);
    }
  }

  /** Quotient and remainder by a block and by 2^32 blocks fit together. */
  lemma BlockLow(c: nat, w: nat, q: nat, r: nat)
    requires c == 64 * (0x1_0000_0000 * w + q) + r && q < 0x1_0000_0000 && r < 64
    ensures c % 0x40_0000_0000 == 64 * q + r
  {
    assert c == 0x40_0000_0000 * w + (64 * q + r);
  }

  /** Zero padding up to the block boundary, then dropping the padding, lands on the byte offset. */
  lemma PaddedXor(pr: Primitives, iv: bytes, c: nat, m: bytes)
    ensures XorIc(pr, iv, c / 64, Zeros(c % 64) + m)[c % 64..] == XorAt(pr, iv, KeystreamOffset(pr.cipher, c), m)
  {
    BlockSplit(pr.cipher, c);
    XorAppend(pr, iv, 64 * BlockCounter(pr.cipher, c / 64), Zeros(c % 64), m);
  }

  function Flatten(ss: seq<bytes>): bytes {
    if ss == [] then [] else ss[0] + Flatten(ss[1..])
  }

  lemma {:induction false} FlattenAppend(a: seq<bytes>, b: seq<bytes>)
    ensures Flatten(a + b) == Flatten(a) + Flatten(b)
  {
    if a == [] {
      assert a + b == b;
    } else {
      assert (a + b)[1..] == a[1..] + b;
      FlattenAppend(a[1..], b);
    }
  }
}
