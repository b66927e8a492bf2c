/** Metering of the encoded source, magic sniffing, and the decoder it selects. */
module Compress {
  import opened Base
  import opened Errors
  import opened Streams

  const PEEK_LEN := 4
  const BUF_CAP := 65536
  const ZSTD_MAGIC: Bytes := [0x28, 0xB5, 0x2F, 0xFD]

  /** Counts the source bytes pulled and marks transport failures. */
  class Meter {
    const inner: Source
    var count: u64

    ghost predicate Valid()
      reads this, inner
    {
      inner.Valid() && count == inner.taken
    }

    constructor (inner: Source)
      requires inner.Valid() && inner.taken == 0
      ensures Valid() && this.inner == inner
    {
      this.inner := inner;
      count := 0;
    }

    method PollRead(buf: ReadBuf) returns (p: Poll)
      requires Valid() && buf.Valid()
      modifies this, inner, buf
      ensures Valid() && buf.Valid() && old(count) <= count
      ensures buf.filled == old(buf.filled) + inner.content[old(count)..count]
      ensures !p.Ready? ==> count == old(count)
      ensures p.Ready? && count == old(count) ==> |buf.filled| == buf.capacity || count == |inner.content|
      ensures inner.stalls <= old(inner.stalls) && (p.Pending? ==> inner.stalls < old(inner.stalls))
      ensures p.Failed? ==> inner.failure.Some? && p.error == Transport(inner.failure.value)
      // the kind stays, and the error itself is inside
      ensures p.Failed? ==> p == Failed(Wrapped(inner.failure.value, Io(Plain(inner.failure.value))))
      ensures !p.Failed? ==> inner.failure == old(inner.failure)
    {
      var before := |buf.filled|;
      p := inner.PollRead(buf);
      var read := |buf.filled| - before;
      if read > 0 {
        count := count + read;
      }
      if p.Failed? {
        p := Failed(Wrapped(p.error.kind, Io(p.error)));
      }
    }
  }

  /**
   A decoder as functions on the encoded bytes fed so far: what they decode to, whether
   the input may end there, and whether they already rule out every valid continuation.
   Feeding more never retracts output, and never repairs a corrupt stream.
   */
  datatype Coder = Coder(decode: Bytes -> Bytes, complete: Bytes -> bool, corrupt: Bytes -> bool)

  ghost predicate Grows(c: Coder, a: Bytes, b: Bytes) {
    a <= b ==> c.decode(a) <= c.decode(b) && (c.corrupt(a) ==> c.corrupt(b) && !c.complete(b))
  }

  ghost predicate Lawful(c: Coder) {
    c.decode([]) == [] && forall a, b :: Grows(c, a, b)
  }

  function Identity(): (c: Coder)
    ensures Lawful(c)
  {
    Coder((s: Bytes) => s, (s: Bytes) => true, (s: Bytes) => false)
  }

  /** The decoder `wrap` selects for the bytes peeked. */
  function Choose(magic: Bytes, zstd: Coder): Coder {
    if ZSTD_MAGIC <= magic then zstd else Identity()
  }

  /** What the decoder reports for input that ends inside a frame. */
  function BadFrame(): IoError {
    Plain(UnexpectedEof)
  }

  /** What the decoder reports for input that no continuation can make valid. */
  function CorruptFrame(): IoError {
    Plain(OtherKind(1))
  }

  predicate DecoderError(e: IoError) {
    e == BadFrame() || e == CorruptFrame()
  }

  /**
   The buffered, magic-selected decoder. `held` is what has been pulled from the
   source but not yet fed to the coder: first the replayed magic, then read-ahead.
   */
  class Decoder {
    const meter: Meter
    const coder: Coder
    var held: Bytes
    var fed: Bytes
    var ended: bool
    var taken: nat

    ghost function Encoded(): Bytes {
      meter.inner.content
    }

    ghost function Whole(): Bytes {
      coder.decode(Encoded())
    }

    ghost predicate Valid()
      reads this, meter, meter.inner
    {
      && meter.Valid() && Lawful(coder) && |Whole()| <= U64_MAX
      && fed + held == Encoded()[..meter.count]
      && taken <= |coder.decode(fed)|
      && (ended ==> held == [] && fed == Encoded())
    }

    constructor (meter: Meter, coder: Coder, replay: Bytes)
      requires meter.Valid() && Lawful(coder) && |coder.decode(meter.inner.content)| <= U64_MAX
      requires replay == meter.inner.content[..meter.count]
      ensures Valid() && this.meter == meter && this.coder == coder && taken == 0
      ensures fed == [] && held == replay
    {
      this.meter, this.coder := meter, coder;
      held, fed, ended, taken := replay, [], false, 0;
    }

    /** Decoded output is always a prefix of the decoding of everything pulled, hence of the whole. */
    lemma FedIsPrefix()
      requires Valid()
      ensures fed <= Encoded()[..meter.count] <= Encoded()
      ensures coder.decode(fed) <= coder.decode(Encoded()[..meter.count]) <= Whole()
    {
      assert fed <= fed + held;
      assert Grows(coder, fed, Encoded()[..meter.count]);
      assert Grows(coder, Encoded()[..meter.count], Encoded());
    }

    /** What is corrupt so far makes the whole stream incomplete. */
    lemma CorruptIsIncomplete()
      requires Valid() && coder.corrupt(fed)
      ensures !coder.complete(Encoded())
    {
      FedIsPrefix();
      assert Grows(coder, fed, Encoded());
    }

    /**
     Feed the coder until decoded bytes are waiting or the input has ended cleanly. A
     corrupt stream fails at once or after its last decoded bytes have been handed out.
     */
    method Fill() returns (p: Poll)
      requires Valid()
      modifies this, meter, meter.inner
      ensures Valid() && taken == old(taken) && old(meter.count) <= meter.count
      ensures p.Ready? ==> taken < |coder.decode(fed)| || (ended && coder.complete(Encoded()) && taken == |Whole()|)
      ensures meter.inner.stalls <= old(meter.inner.stalls)
      ensures p.Pending? ==> meter.inner.stalls < old(meter.inner.stalls)
      ensures p.Failed? ==> DecodeFailure(p.error)
      ensures !p.Failed? ==> meter.inner.failure == old(meter.inner.failure)
    {
      if coder.corrupt(fed) {
        CorruptIsIncomplete();
        if * { return Failed(CorruptFrame()); }
      }
      while taken == |coder.decode(fed)|
        invariant Valid() && taken == old(taken)
        invariant old(meter.count) <= meter.count
        invariant meter.inner.stalls <= old(meter.inner.stalls)
        invariant meter.inner.failure == old(meter.inner.failure)
        decreases |Encoded()| - |fed|, |Encoded()| - meter.count, !ended
      {
        if coder.corrupt(fed) {
          CorruptIsIncomplete();
          return Failed(CorruptFrame());
        } else if held != [] {
          var n :| 1 <= n <= |held|;
          FeedSome(n);
        } else if ended {
          return if coder.complete(fed) then Ready else Failed(BadFrame());
        } else {
          var chunk := new ReadBuf(BUF_CAP);
          p := meter.PollRead(chunk);
          if !p.Ready? {
            return;
          }
          assert Encoded()[..old(meter.count)] <= Encoded()[..meter.count];
          held, ended := chunk.filled, chunk.filled == [];
        }
      }
      return Ready;
    }

    method FeedSome(n: nat)
      requires Valid() && 1 <= n <= |held| && taken == |coder.decode(fed)|
      modifies this
      ensures Valid() && taken == old(taken) && fed == old(fed) + old(held)[..n] && held == old(held)[n..]
    {
      ghost var more := fed + held[..n];
      assert more + held[n..] == fed + held;
      assert Grows(coder, fed, more);
      fed, held := fed + held[..n], held[n..];
    }

    ghost predicate DecodeFailure(e: IoError)
      reads meter, meter.inner
    {
      || (meter.inner.failure.Some? && e == Transport(meter.inner.failure.value))
      || (!coder.complete(Encoded()) && DecoderError(e))
    }

    method PollRead(buf: ReadBuf) returns (p: Poll)
      requires Valid() && buf.Valid()
      modifies this, meter, meter.inner, buf
      ensures Valid() && buf.Valid() && old(taken) <= taken <= |Whole()|
      ensures buf.filled == old(buf.filled) + Whole()[old(taken)..taken]
      ensures old(meter.count) <= meter.count && taken <= |coder.decode(Encoded()[..meter.count])|
      ensures !p.Ready? ==> taken == old(taken)
      ensures p.Ready? && taken == old(taken) ==>
        |buf.filled| == buf.capacity
        || (taken == |Whole()| && meter.count == |Encoded()| && coder.complete(Encoded()))
      ensures meter.inner.stalls <= old(meter.inner.stalls)
      ensures p.Pending? ==> meter.inner.stalls < old(meter.inner.stalls)
      ensures p.Failed? ==> DecodeFailure(p.error)
      ensures !p.Failed? ==> meter.inner.failure == old(meter.inner.failure)
    {
      p := Fill();
      FedIsPrefix();
      if p.Ready? {
        var waiting := coder.decode(fed)[taken..];
        var room := Min(buf.Remaining(), |waiting|);
        if room > 0 {
          var n :| 1 <= n <= room;
          buf.Put(waiting[..n]);
          assert waiting[..n] == Whole()[taken..taken + n];
          taken := taken + n;
        }
      }
    }
  }

  /** How opening a source ended; a dropped call was abandoned while pending. */
  datatype Opened = Chosen(decoder: Decoder) | PeekFailed(error: IoError) | PeekDropped

  /**
   `compress::decoded`: peek up to four bytes in a loop, then choose a decoder that
   sees those bytes again. However the peek was chunked, the choice is the prefix
   test on the whole stream, and nothing has been lost or replayed twice.
   */
  method Decoded(meter: Meter, zstd: Coder) returns (r: Opened)
    requires meter.Valid() && meter.count == 0
    requires Lawful(zstd) && |zstd.decode(meter.inner.content)| <= U64_MAX
    modifies meter, meter.inner
    ensures r.Chosen? ==> fresh(r.decoder) && r.decoder.Valid() && r.decoder.meter == meter && r.decoder.taken == 0
    ensures r.Chosen? ==> r.decoder.coder == Choose(meter.inner.content, zstd)
    ensures r.Chosen? ==>
      var c := meter.inner.content;
      r.decoder.coder == if |c| >= 4 && c[..4] == [0x28, 0xB5, 0x2F, 0xFD] then zstd else Identity()
    ensures r.Chosen? ==>
      r.decoder.fed == [] && r.decoder.held == meter.inner.content[..Min(PEEK_LEN, |meter.inner.content|)]
    ensures r.Chosen? ==> meter.inner.failure == old(meter.inner.failure)
    ensures r.PeekFailed? ==> meter.inner.failure.Some? && r.error == Transport(meter.inner.failure.value)
    ensures meter.inner.stalls <= old(meter.inner.stalls)
    ensures r.PeekDropped? ==> meter.inner.stalls < old(meter.inner.stalls)
  {
    var magic: Bytes := [];
    while |magic| < PEEK_LEN
      invariant meter.Valid() && |magic| <= PEEK_LEN && magic == meter.inner.content[..meter.count]
      invariant meter.inner.failure == old(meter.inner.failure) && meter.inner.stalls <= old(meter.inner.stalls)
      decreases PEEK_LEN - |magic|, meter.inner.stalls
    {
      var rest := new ReadBuf(PEEK_LEN - |magic|);
      var p := meter.PollRead(rest);
      if p.Failed? { return PeekFailed(p.error); }
      if p.Pending? {
        if * { return PeekDropped; }
      } else {
        if rest.filled == [] { break; }
        magic := magic + rest.filled;
      }
    }
    var decoder := new Decoder(meter, Choose(magic, zstd), magic);
    return Chosen(decoder);
  }
}
