/**
 The client side (`ss_gen_hash` then `ss_encrypt` per read) composed with the server side
 (`ss_decrypt` then `ss_check_hash` per received fragment).
 */
module EndToEnd {
  import opened Basics
  import opened Crypto
  import opened Chunks
  import Stream

  /** The frames of successive reads. */
  function Frames(pr: Primitives, iv: bytes, counter: nat, ps: seq<bytes>): (fs: seq<bytes>)
    ensures |fs| == |ps|
    decreases |ps|
  {
    if ps == [] then [] else [Frame(pr, iv, counter, ps[0])] + Frames(pr, iv, Next(counter), ps[1..])
  }

  /** Everything the client puts on the wire. */
  function Wire(pr: Primitives, iv: bytes, ps: seq<bytes>): bytes {
    Stream.EncryptAll(pr, Stream.Ctx(false, 0, iv), Frames(pr, iv, 0, ps))
  }

  /** The server's decryption context, carried partial chunk and chunk counter. */
  datatype Receiver = Receiver(ctx: Stream.Ctx, partial: bytes, counter: nat)

  datatype Received = Released(out: bytes, next: Receiver) | Refused

  const NewReceiver := Receiver(Stream.Ctx(false, 0, []), [], 0)

  function Receive(pr: Primitives, rx: Receiver, c: bytes): Received
    requires rx.ctx.init || |c| > pr.ivLen
  {
    var d := Stream.Decrypt(pr, rx.ctx, c, false);
    var p := Unframe(pr, d.ctx.iv, rx.counter, rx.partial + d.out);
    if p.BadHash? then Refused else Released(p.out, Receiver(d.ctx, p.rest, p.counter))
  }

  /** Fragment by fragment; what was released before a refusal no longer counts. */
  function ReceiveAll(pr: Primitives, rx: Receiver, cs: seq<bytes>): Received
    requires rx.ctx.init || cs == [] || |cs[0]| > pr.ivLen
    decreases |cs|
  {
    if cs == [] then Released([], rx) else
    var r := Receive(pr, rx, cs[0]);
    if r.Refused? then Refused else
    var rest := ReceiveAll(pr, r.next, cs[1..]);
    if rest.Refused? then Refused else Released(r.out + rest.out, rest.next)
  }

  lemma {:induction false} FlattenFrames(pr: Primitives, iv: bytes, counter: nat, ps: seq<bytes>)
    ensures Flatten(Frames(pr, iv, counter, ps)) == FrameAll(pr, iv, counter, ps)
    decreases |ps|
  {
    if ps != [] {
      FlattenFrames(pr, iv, Next(counter), ps[1..]);
    }
  }

  /** What a receiver with a set-up context makes of plaintext `m` that is still to come. */
  function Outcome(pr: Primitives, rx: Receiver, iv: bytes, m: bytes, end: Stream.Ctx): Received {
    var p := Unframe(pr, iv, rx.counter, rx.partial + m);
    if p.BadHash? then Refused else Released(p.out, Receiver(end, p.rest, p.counter))
  }

  lemma OutcomeSplits(pr: Primitives, rx: Receiver, iv: bytes, a: bytes, b: bytes, mid: Stream.Ctx, end: Stream.Ctx)
    ensures Outcome(pr, rx, iv, a + b, end) ==
      var x := Outcome(pr, rx, iv, a, mid);
      if x.Refused? then Refused else
      var y := Outcome(pr, x.next, iv, b, end);
      if y.Refused? then Refused else Released(x.out + y.out, y.next)
  {
    hide Unframe;
    UnframeAppend(pr, iv, rx.counter, rx.partial + a, b);
    assert (rx.partial + a) + b == rx.partial + (a + b);
  }

  lemma {:induction false} ReceiveAllFrom(pr: Primitives, rx: Receiver, cs: seq<bytes>)
    requires rx.ctx.init || (cs != [] && |cs[0]| > pr.ivLen)
    requires !Complete(rx.partial)
    ensures var d := Stream.DecryptAll(pr, rx.ctx, cs);
      d.Output? && ReceiveAll(pr, rx, cs) == Outcome(pr, rx, d.ctx.iv, d.out, d.ctx)
    decreases |cs|
  {
    if cs == [] {
      assert rx.partial + [] == rx.partial;
    } else {
      var d := Stream.Decrypt(pr, rx.ctx, cs[0], false);
      var r := Receive(pr, rx, cs[0]);
      var all := Stream.DecryptAll(pr, rx.ctx, cs);
      KeepsIv(pr, d.ctx, cs[1..]);
      var later := Stream.DecryptAll(pr, d.ctx, cs[1..]);
      OutcomeSplits(pr, rx, d.ctx.iv, d.out, later.out, d.ctx, later.ctx);
      if r.Released? {
        RestIsIncomplete(pr, d.ctx.iv, rx.counter, rx.partial + d.out);
        ReceiveAllFrom(pr, r.next, cs[1..]);
      }
    }
  }

  lemma {:induction false} KeepsIv(pr: Primitives, ctx: Stream.Ctx, cs: seq<bytes>)
    requires ctx.init
    ensures var d := Stream.DecryptAll(pr, ctx, cs); d.Output? && d.ctx.iv == ctx.iv
    decreases |cs|
  {
    if cs != [] {
      KeepsIv(pr, Stream.Decrypt(pr, ctx, cs[0], false).ctx, cs[1..]);
    }
  }

  /** Nothing was refused and the payloads of the chunks whole within n frame bytes were released. */
  ghost predicate ReleasedWhole(pr: Primitives, ps: seq<bytes>, cs: seq<bytes>, n: nat)
    requires cs != [] && |cs[0]| > pr.ivLen
  {
    var r := ReceiveAll(pr, NewReceiver, cs);
    r.Released? && r.out == Flatten(ps[..WholeChunks(ps, n)])
  }

  /** The receiver decrypted a prefix of the frames. */
  lemma PrefixArrives(pr: Primitives, iv: bytes, ps: seq<bytes>, cs: seq<bytes>, got: bytes)
    requires cs != [] && |cs[0]| > pr.ivLen && AllFit(ps)
    requires Stream.DecryptAll(pr, NewReceiver.ctx, cs) == Stream.Output(got, Stream.Ctx(true, |got|, iv))
    requires got <= FrameAll(pr, iv, 0, ps)
    ensures ReleasedWhole(pr, ps, cs, |got|)
  {
    ReceiveAllFrom(pr, NewReceiver, cs);
    assert NewReceiver.partial + got == got;
    UnframePrefix(pr, iv, 0, ps, got);
  }

  /**
   For every cut of the payload into client reads and every re-cut of what has arrived of the wire,
   nothing is refused and exactly the payloads of the whole chunks received are released, in order.
   */
  lemma WholeChunksArrive(pr: Primitives, iv: bytes, ps: seq<bytes>, cs: seq<bytes>)
    requires |iv| == pr.ivLen && ps != [] && AllFit(ps)
    requires Stream.InRange(pr.cipher, |FrameAll(pr, iv, 0, ps)|)
    requires cs != [] && |cs[0]| > pr.ivLen && Flatten(cs) <= Wire(pr, iv, ps)
    ensures |Flatten(cs)| >= |iv|
    ensures ReleasedWhole(pr, ps, cs, |Flatten(cs)| - |iv|)
  {
    hide ReleasedWhole, Flatten, FrameAll, Frames, Stream.EncryptAll, Stream.DecryptAll, AllFit, Stream.InRange;
    FlattenFrames(pr, iv, 0, ps);
    Stream.DecryptInvertsEncrypt(pr, iv, Frames(pr, iv, 0, ps), cs, 0, 0, []);
    PrefixArrives(pr, iv, ps, cs, FrameAll(pr, iv, 0, ps)[..|Flatten(cs)| - |iv|]);
  }

  /** Once the whole wire has arrived, the whole payload has been released. */
  lemma EverythingArrives(pr: Primitives, iv: bytes, ps: seq<bytes>, cs: seq<bytes>)
    requires |iv| == pr.ivLen && ps != [] && AllFit(ps)
    requires Stream.InRange(pr.cipher, |FrameAll(pr, iv, 0, ps)|)
    requires cs != [] && |cs[0]| > pr.ivLen && Flatten(cs) == Wire(pr, iv, ps)
    ensures var r := ReceiveAll(pr, NewReceiver, cs); r.Released? && r.out == Flatten(ps)
  {
    hide Wire, FrameAll, Flatten, AllFit, WholeChunks, ReceiveAll;
    WireLength(pr, iv, ps);
    WholeChunksArrive(pr, iv, ps, cs);
    AllWhole(pr, iv, 0, ps);
    assert ps[..|ps|] == ps;
  }

  lemma WireLength(pr: Primitives, iv: bytes, ps: seq<bytes>)
    requires ps != [] && Stream.InRange(pr.cipher, |FrameAll(pr, iv, 0, ps)|)
    ensures |Wire(pr, iv, ps)| == |iv| + |FrameAll(pr, iv, 0, ps)|
  {
    FlattenFrames(pr, iv, 0, ps);
    Stream.EncryptIgnoresCuts(pr, iv, 0, Frames(pr, iv, 0, ps));
  }

  lemma {:induction false} AllWhole(pr: Primitives, iv: bytes, counter: nat, ps: seq<bytes>)
    ensures WholeChunks(ps, |FrameAll(pr, iv, counter, ps)|) == |ps|
    decreases |ps|
  {
    if ps != [] {
      AllWhole(pr, iv, Next(counter), ps[1..]);
    }
  }
}
