/** The decoded-byte and decompression-ratio caps. */
module Caps {
  import opened Base
  import opened Errors
  import opened Streams
  import opened Compress

  const RATIO_FLOOR_BYTES := 8 * 1024 * 1024

  lemma SatMulMonotone(a: nat, b: nat, ratio: nat)
    requires a <= b
    ensures SatMul(a, ratio) <= SatMul(b, ratio)
  {
    assert a * ratio <= b * ratio;
  }

  /** However the decoder reads ahead, `k` source bytes decode to no more than the ratio allows. */
  ghost predicate Gentle(coder: Coder, encoded: Bytes, ratio: nat, k: nat)
    requires k <= |encoded|
  {
    |coder.decode(encoded[..k])| <= SatMul(k, ratio)
  }

  /** The stream stays below the floor, or decodes gently throughout. */
  ghost predicate WithinRatio(coder: Coder, encoded: Bytes, ratio: nat) {
    || |coder.decode(encoded)| <= RATIO_FLOOR_BYTES
    || forall k: nat :: k <= |encoded| ==> Gentle(coder, encoded, ratio, k)
  }

  /** The encoded stream is complete, and decodes within the total cap and the ratio. */
  ghost predicate FitsWithin(coder: Coder, encoded: Bytes, max: nat, ratio: nat) {
    |coder.decode(encoded)| <= max && coder.complete(encoded) && WithinRatio(coder, encoded, ratio)
  }

  /** An uncompressed stream fits as soon as it is within the total cap and the ratio is not zero. */
  lemma RawFits(encoded: Bytes, max: nat, ratio: nat)
    requires |encoded| <= U64_MAX
    ensures 0 < ratio && |encoded| <= max ==> FitsWithin(Identity(), encoded, max, ratio)
  {
    if 0 < ratio {
      forall k: nat | k <= |encoded|
        ensures Gentle(Identity(), encoded, ratio, k)
      {
        assert k <= k * ratio;
      }
    }
  }

  /** The caps in numbers: nothing above eight mebibytes decodes to more than the ratio times what was fed. */
  lemma FitsInNumbers(coder: Coder, encoded: Bytes, max: nat, ratio: nat)
    requires Lawful(coder) && |coder.decode(encoded)| <= U64_MAX
    ensures FitsWithin(coder, encoded, max, ratio) <==>
      (&& |coder.decode(encoded)| <= max && coder.complete(encoded)
       && (|coder.decode(encoded)| <= 8388608
           || forall k :: 0 <= k <= |encoded| ==> |coder.decode(encoded[..k])| <= k * ratio))
  {
    forall k: nat | k <= |encoded|
      ensures Gentle(coder, encoded, ratio, k) <==> |coder.decode(encoded[..k])| <= k * ratio
    {
      assert Grows(coder, encoded[..k], encoded);
    }
  }

  class Cap {
    const inner: Decoder
    const max: u64
    const maxRatio: u64
    var total: u64
    var failed: bool
    /** Bytes delivered to the caller and not withdrawn. */
    ghost var taken: nat

    ghost function Footprint(): set<object> {
      {this, inner, inner.meter, inner.meter.inner}
    }

    ghost function Whole(): Bytes {
      inner.Whole()
    }

    ghost function Encoded(): Bytes {
      inner.Encoded()
    }

    ghost function Source(): Source {
      inner.meter.inner
    }

    ghost predicate Valid()
      reads Footprint()
    {
      && inner.Valid() && total == inner.taken && taken <= total <= |Whole()|
      && WithinCaps()
      && (failed ==> total > max || !WithinRatio(inner.coder, Encoded(), maxRatio)) && (!failed ==> taken == total)
    }

    /** The bound the cap exists for, in force after every delivery. */
    ghost predicate WithinCaps()
      reads Footprint()
    {
      && taken <= max
      && (taken <= RATIO_FLOOR_BYTES || taken <= SatMul(inner.meter.count, maxRatio))
    }

    constructor (inner: Decoder, max: u64, maxRatio: u64)
      requires inner.Valid() && inner.taken == 0
      ensures Valid() && this.inner == inner && this.max == max && this.maxRatio == maxRatio
      ensures !failed && taken == 0
    {
      this.inner, this.max, this.maxRatio := inner, max, maxRatio;
      total, failed, taken := 0, false, 0;
    }

    /** What the first failed read reports: a transport or decoder failure, or the breached cap. */
    ghost predicate Failure(e: IoError)
      reads Footprint()
    {
      || (Source().failure.Some? && e == Transport(Source().failure.value))
      || (!inner.coder.complete(Encoded()) && DecoderError(e))
      || (failed && e == CapError(Reason()))
    }

    /** The cap that a breach is blamed on, the total before the ratio. */
    function Reason(): string
      reads this
    {
      if total > max then "max_total_bytes" else "max_compression_ratio"
    }

    /** Charge `read` decoded bytes and report which cap, if any, is now breached. */
    method Breach(read: nat) returns (reason: Option<string>)
      requires 0 < read && total + read == inner.taken <= U64_MAX
      modifies this`total
      ensures total == old(total) + read
      ensures reason == None <==> (total <= max
        && (total <= 8388608 || inner.meter.count == 0 || total <= inner.meter.count * maxRatio))
      ensures reason.Some? ==> reason.value == Reason()
      ensures reason.Some? ==> reason.value == if total > max then "max_total_bytes" else "max_compression_ratio"
    {
      total := total + read;
      if total > max {
        return Some("max_total_bytes");
      }
      var input := inner.meter.count;
      if total > RATIO_FLOOR_BYTES && input > 0 && total > SatMul(input, maxRatio) {
        return Some("max_compression_ratio");
      }
      return None;
    }

    method PollRead(buf: ReadBuf) returns (p: Poll)
      requires Valid() && buf.Valid()
      modifies Footprint(), buf
      ensures Valid() && buf.Valid() && old(taken) <= taken <= |Whole()|
      ensures buf.filled == old(buf.filled) + Whole()[old(taken)..taken]
      ensures WithinCaps()
      ensures taken <= max && (taken <= 8388608 || taken <= inner.meter.count * maxRatio)
      ensures !p.Ready? ==> taken == old(taken)
      ensures p.Ready? && taken == old(taken) ==> |buf.filled| == buf.capacity || AtEnd()
      ensures Source().stalls <= old(Source().stalls)
      ensures p.Pending? ==> Source().stalls < old(Source().stalls)
      ensures p.Failed? && !old(failed) ==> Failure(p.error)
      ensures !p.Failed? ==> !failed && Source().failure == old(Source().failure)
      // a breach withdraws the read, and every later read fails
      ensures failed && !old(failed) ==> p == Failed(CapError(Reason())) && total > taken == old(taken)
      ensures old(failed) ==> failed && p == Failed(CapError("aborted")) && total == old(total)
    {
      if failed {
        return Failed(CapError("aborted"));
      }
      var before := |buf.filled|;
      p := inner.PollRead(buf);
      var read := |buf.filled| - before;
      SatMulMonotone(old(inner.meter.count), inner.meter.count, maxRatio);
      if read > 0 {
        var reason := Breach(read);
        if reason.Some? {
          BreachMeansTooMuch();
          buf.SetFilled(before);
          failed := true;
          return Failed(CapError(reason.value));
        }
        MeteredBeforeDecoded();
        taken := total;
      }
    }

    /** No decoded byte appears before the first encoded one. */
    lemma MeteredBeforeDecoded()
      requires inner.Valid() && inner.taken <= |inner.coder.decode(Encoded()[..inner.meter.count])|
      ensures inner.taken > 0 ==> inner.meter.count > 0
    {
      if inner.meter.count == 0 {
        assert Encoded()[..0] == [];
      }
    }

    lemma BreachMeansTooMuch()
      requires inner.Valid() && inner.taken <= |inner.coder.decode(Encoded()[..inner.meter.count])|
      requires
        || inner.taken > max
        || (inner.taken > RATIO_FLOOR_BYTES && inner.taken > SatMul(inner.meter.count, maxRatio))
      ensures inner.taken > max || !WithinRatio(inner.coder, Encoded(), maxRatio)
    {
      inner.FedIsPrefix();
      if inner.taken <= max {
        assert !Gentle(inner.coder, Encoded(), maxRatio, inner.meter.count);
      }
    }

    /** The clean end: everything decoded, everything pulled, and nothing half-decoded. */
    ghost predicate AtEnd()
      reads Footprint()
    {
      && taken == total == |Whole()| && inner.meter.count == |Encoded()|
      && inner.coder.complete(Encoded())
    }
  }
}
