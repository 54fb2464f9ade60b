/** The request header at the front of a connection's plaintext. */
module Header {
  import opened Basics
  import opened Crypto
  import opened Chunks

  datatype Header = Header(offset: nat, auth: bool) | Malformed

  /** `parse_header_len`: address and port behind the type byte, as far as the bytes show them. */
  function AddressLen(b: bytes): nat
    requires |b| >= 1
  {
    if b[0] % 16 == 1 then 4 + 2
    else if b[0] % 16 == 3 then (if |b| >= 2 then b[1] as nat + 1 else 1) + 2
    else if b[0] % 16 == 4 then 16 + 2
    else 2
  }

  /** ATYP & ONETIMEAUTH_FLAG. */
  predicate WantsAuth(b: bytes)
    requires |b| >= 1
  {
    b[0] / 16 % 2 == 1
  }

  /** `ss_onetimeauth_verify` on the first n bytes and the ten behind them. */
  predicate Verified(pr: Primitives, iv: bytes, b: bytes, n: nat)
    requires n + ONETIMEAUTH_BYTES <= |b|
  {
    pr.hmac(iv + pr.key, b[..n])[..ONETIMEAUTH_BYTES] == b[n..n + ONETIMEAUTH_BYTES]
  }

  /**
   The header checks of `server_recv_cb` at stage 0 on the first plaintext: where the payload
   starts and whether it is chunked.
   */
  function Parse(pr: Primitives, iv: bytes, force: bool, b: bytes): (h: Header)
    requires |b| >= 1
    ensures h.Header? ==> h.offset <= |b|
  {
    var auth := force || WantsAuth(b);
    var n := 1 + AddressLen(b);
    if auth && (|b| < n + ONETIMEAUTH_BYTES || !Verified(pr, iv, b, n)) then Malformed
    else if b[0] % 16 == 1 && |b| < 7 then Malformed
    else if b[0] % 16 == 3 && (|b| < 2 || |b| < b[1] as nat + 4) then Malformed
    else if b[0] % 16 == 4 && |b| < 19 then Malformed
    else if b[0] % 16 !in {1, 3, 4} then Malformed
    else
      var offset := if auth then n + ONETIMEAUTH_BYTES else n;
      if |b| < offset then Malformed else Header(offset, auth)
  }

  /** A header with nothing behind it. */
  predicate Whole(pr: Primitives, iv: bytes, force: bool, head: bytes) {
    head != [] && Parse(pr, iv, force, head).Header? && Parse(pr, iv, force, head).offset == |head|
  }

  /**
   The start of a header and whatever follows it is accepted exactly if the header is all there; then
   nothing behind it matters.
   */
  lemma PrefixParses(pr: Primitives, iv: bytes, force: bool, head: bytes, rest: bytes, b: bytes)
    requires Whole(pr, iv, force, head) && b != [] && b <= head + rest
    ensures Parse(pr, iv, force, b).Header? <==> |b| >= |head|
    ensures |b| >= |head| ==> Parse(pr, iv, force, b) == Parse(pr, iv, force, head)
  {
    assert b[0] == head[0];
    assert |b| >= 2 && |head| >= 2 ==> b[1] == head[1];
    if |b| >= |head| {
      assert b[..|head|] == head;
      SameVerdict(pr, iv, head, b);
    }
  }

  lemma SameVerdict(pr: Primitives, iv: bytes, head: bytes, b: bytes)
    requires head <= b
    ensures forall n: nat :: n + ONETIMEAUTH_BYTES <= |head| ==> Verified(pr, iv, b, n) == Verified(pr, iv, head, n)
  {
    forall n: nat | n + ONETIMEAUTH_BYTES <= |head| ensures Verified(pr, iv, b, n) == Verified(pr, iv, head, n) {
      assert b[..n] == head[..n] && b[n..n + ONETIMEAUTH_BYTES] == head[n..n + ONETIMEAUTH_BYTES];
    }
  }

  /** An IPv4 header of seven bytes is in order; its first byte alone is refused. */
  lemma CutHeaderIsRefused(pr: Primitives, iv: bytes)
    ensures var head: bytes := [1, 127, 0, 0, 1, 0, 80];
      Whole(pr, iv, false, head) && Parse(pr, iv, false, head[..1]).Malformed?
  {
    var head: bytes := [1, 127, 0, 0, 1, 0, 80];
    PrefixParses(pr, iv, false, head, [], head[..1]);
    assert head[..1] <= head + [];
  }
}
