/** The sink side: counted bytes, and the plain or compressed output a builder writes to. */
module Output {
  import opened Base
  import opened Errors
  import opened Streams

  /** Counts the bytes the sink accepted, saturating at the 64-bit ceiling. */
  class Counted {
    const inner: Sink
    var bytes: u64
    /** What the sink held before. */
    ghost const base: Bytes

    ghost predicate Valid()
      reads this, inner
    {
      base <= inner.accepted && bytes == Min(|inner.accepted| - |base|, U64_MAX)
    }

    constructor (inner: Sink)
      ensures Valid() && this.inner == inner && base == inner.accepted
    {
      this.inner, this.base := inner, inner.accepted;
      bytes := 0;
    }

    method PollWrite(data: Bytes) returns (p: Poll, count: nat)
      requires Valid()
      modifies this, inner
      ensures Valid() && count <= |data| && inner.accepted == old(inner.accepted) + data[..count]
      ensures !p.Ready? ==> count == 0
      ensures inner.stalls <= old(inner.stalls) && (p.Pending? ==> inner.stalls < old(inner.stalls))
      ensures p.Failed? ==> inner.failure.Some? && p.error == Plain(inner.failure.value)
      ensures p.Ready? && count == 0 && data != [] ==> inner.balked
    {
      p, count := inner.PollWrite(data);
      if p.Ready? {
        bytes := SatAdd(bytes, count);
      }
    }
  }

  /** How an awaited write ended. */
  datatype Written = Done | WriteFailed(error: IoError) | WriteDropped

  /** `write_all`: offer the rest until it is taken; a sink that takes nothing is an error. */
  method WriteAll(out: Counted, data: Bytes) returns (w: Written)
    requires out.Valid()
    modifies out, out.inner
    ensures out.Valid() && old(out.inner.accepted) <= out.inner.accepted <= old(out.inner.accepted) + data
    ensures w.Done? ==> out.inner.accepted == old(out.inner.accepted) + data
    ensures w.WriteFailed? ==>
      || (out.inner.balked && w.error == Plain(WriteZero))
      || (out.inner.failure.Some? && w.error == Plain(out.inner.failure.value))
    ensures out.inner.stalls <= old(out.inner.stalls)
    ensures w.WriteDropped? ==> out.inner.stalls < old(out.inner.stalls)
  {
    var sent := 0;
    while sent < |data|
      invariant out.Valid() && sent <= |data| && out.inner.accepted == old(out.inner.accepted) + data[..sent]
      invariant out.inner.stalls <= old(out.inner.stalls)
      decreases |data| - sent, out.inner.stalls
    {
      var p, count := out.PollWrite(data[sent..]);
      assert data[..sent] + data[sent..][..count] == data[..sent + count];
      match p
      case Failed(e) => return WriteFailed(e);
      case Pending => if * { return WriteDropped; }
      case Ready =>
        if count == 0 { return WriteFailed(Plain(WriteZero)); }
        sent := sent + count;
    }
    assert data[..sent] == data;
    return Done;
  }

  datatype Format = Tar | TarZstd

  /**
   A compressor as a pair of functions on the plain bytes fed so far: what it has
   produced by now, and the whole stream if the input ends here.
   */
  datatype Encoder = Encoder(partial: Bytes -> Bytes, whole: Bytes -> Bytes)

  ghost predicate Extends(e: Encoder, a: Bytes, b: Bytes) {
    a <= b ==> e.partial(a) <= e.partial(b)
  }

  ghost predicate Lawful(e: Encoder) {
    && (forall a, b :: Extends(e, a, b))
    && forall a :: e.partial(a) <= e.whole(a)
  }

  /** A whole archive as it leaves a writer of the given format. */
  function Encoded(format: Format, encoder: Encoder, tar: Bytes): Bytes {
    if format == Tar then tar else encoder.whole(tar)
  }

  /** What a builder writes to: the counted sink itself, or a compressor in front of it. */
  class Stream {
    const out: Counted
    const format: Format
    const encoder: Encoder
    /** The tar bytes written so far. */
    var plain: Bytes
    /** How much of the compressed stream has reached the sink. */
    var flushed: nat

    ghost function Footprint(): set<object> {
      {this, out, out.inner}
    }

    /** The tar bytes are all in the sink, or the sink holds a prefix of their compression. */
    ghost predicate Valid()
      reads Footprint()
    {
      && out.Valid() && Lawful(encoder)
      && match format
         case Tar => out.inner.accepted == out.base + plain
         case TarZstd =>
           && flushed <= |encoder.partial(plain)|
           && out.inner.accepted == out.base + encoder.partial(plain)[..flushed]
    }

    constructor (out: Counted, format: Format, encoder: Encoder)
      requires out.Valid() && out.inner.accepted == out.base && Lawful(encoder)
      ensures Valid() && plain == [] && this.out == out && this.format == format && this.encoder == encoder
    {
      this.out, this.format, this.encoder := out, format, encoder;
      plain, flushed := [], 0;
    }

    /** The stream a finished archive of `tar` bytes leaves behind. */
    function Encode(tar: Bytes): Bytes {
      Encoded(format, encoder, tar)
    }

    ghost predicate Failure(e: IoError)
      reads out.inner
    {
      (out.inner.balked && e == Plain(WriteZero)) || (out.inner.failure.Some? && e == Plain(out.inner.failure.value))
    }

    /** How often the sink may still answer pending. */
    ghost function Stalls(): nat
      reads out.inner
    {
      out.inner.stalls
    }

    /** Write tar bytes: through to the sink, or into the compressor, which may pass some output on. */
    method Write(data: Bytes) returns (w: Written)
      requires Valid()
      modifies Footprint()
      ensures w.Done? ==> Valid() && plain == old(plain) + data
      ensures w.WriteFailed? ==> Failure(w.error)
      ensures Stalls() <= old(Stalls()) && (w.WriteDropped? ==> Stalls() < old(Stalls()))
    {
      match format
      case Tar =>
        w := WriteAll(out, data);
        plain := plain + data;
      case TarZstd =>
        assert Extends(encoder, plain, plain + data);
        plain := plain + data;
        var upTo :| flushed <= upTo <= |encoder.partial(plain)|;
        w := Flush(encoder.partial(plain), upTo);
    }

    /** Pass compressed output on up to position `upTo`. */
    method Flush(compressed: Bytes, upTo: nat) returns (w: Written)
      requires out.Valid() && flushed <= upTo <= |compressed|
      requires out.inner.accepted == out.base + compressed[..flushed]
      modifies this`flushed, out, out.inner
      ensures w.Done? ==> out.Valid() && flushed == upTo && out.inner.accepted == out.base + compressed[..upTo]
      ensures w.WriteFailed? ==> Failure(w.error)
      ensures Stalls() <= old(Stalls()) && (w.WriteDropped? ==> Stalls() < old(Stalls()))
    {
      w := WriteAll(out, compressed[flushed..upTo]);
      assert compressed[..flushed] + compressed[flushed..upTo] == compressed[..upTo];
      flushed := upTo;
    }

    /** Finish compression, if any, and shut the sink down. */
    method Shutdown() returns (w: Written)
      requires Valid()
      modifies Footprint()
      ensures plain == old(plain)
      ensures w.Done? ==> out.Valid() && out.inner.accepted == out.base + Encode(plain)
      ensures w.WriteFailed? ==> Failure(w.error)
      ensures Stalls() <= old(Stalls()) && (w.WriteDropped? ==> Stalls() < old(Stalls()))
    {
      w := Done;
      if format == TarZstd {
        var whole := encoder.whole(plain);
        assert encoder.partial(plain) <= whole;
        w := Flush(whole, |whole|);
        assert whole[..|whole|] == whole;
        if !w.Done? { return; }
      }
      while true
        invariant out.Valid() && plain == old(plain) && out.inner.accepted == out.base + Encode(plain)
        invariant Stalls() <= old(Stalls())
        decreases Stalls()
      {
        var p := out.inner.PollShutdown();
        match p
        case Ready => return Done;
        case Failed(e) => return WriteFailed(e);
        case Pending => if * { return WriteDropped; }
      }
    }
  }
}
