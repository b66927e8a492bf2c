/**
 The environment: caller buffers, byte sources and byte sinks.

 A `Source` is any `AsyncRead`: each poll may be pending, fail, or hand over any
 non-empty chunk that fits; an empty chunk means the end. `content` is everything
 it would ever deliver and `taken` how much of that it has delivered. `stalls` is
 how many more times it answers "pending"; it is an arbitrary number and only
 bounds waiting loops.
 */
module Streams {
  import opened Base
  import opened Errors

  /** A read buffer: a bounded sequence that grows as bytes are put into it. */
  class ReadBuf {
    const capacity: nat
    var filled: Bytes

    ghost predicate Valid()
      reads this
    {
      |filled| <= capacity
    }

    function Remaining(): nat
      requires Valid()
      reads this
    {
      capacity - |filled|
    }

    constructor (capacity: nat)
      ensures Valid() && filled == [] && this.capacity == capacity
    {
      this.capacity := capacity;
      filled := [];
    }

    method Put(bytes: Bytes)
      requires Valid() && |bytes| <= Remaining()
      modifies this
      ensures Valid() && filled == old(filled) + bytes
    {
      filled := filled + bytes;
    }

    /** `ReadBuf::set_filled` to a shorter length. */
    method SetFilled(length: nat)
      requires Valid() && length <= |filled|
      modifies this
      ensures Valid() && filled == old(filled)[..length]
    {
      filled := filled[..length];
    }
  }

  class Source {
    const content: Bytes
    var taken: nat
    var stalls: nat
    var failure: Option<IoKind>

    ghost predicate Valid()
      reads this
    {
      taken <= |content| <= U64_MAX
    }

    constructor (content: Bytes, stalls: nat)
      requires |content| <= U64_MAX
      ensures Valid() && this.content == content && taken == 0 && this.stalls == stalls && failure == None
    {
      this.content := content;
      taken, this.stalls, failure := 0, stalls, None;
    }

    method PollRead(buf: ReadBuf) returns (p: Poll)
      requires Valid() && buf.Valid()
      modifies this, buf
      ensures Valid() && buf.Valid() && old(taken) <= taken
      ensures buf.filled == old(buf.filled) + content[old(taken)..taken]
      ensures !p.Ready? ==> taken == old(taken)
      ensures p.Ready? && taken == old(taken) ==> |buf.filled| == buf.capacity || taken == |content|
      ensures stalls <= old(stalls) && (p.Pending? ==> stalls < old(stalls))
      ensures p.Failed? ==> failure.Some? && p.error == Plain(failure.value)
      ensures !p.Failed? ==> failure == old(failure)
    {
      if stalls > 0 {
        if * {
          stalls := stalls - 1;
          return Pending;
        }
      }
      if * {
        var kind: IoKind := *;
        failure := Some(kind);
        return Failed(Plain(kind));
      }
      var room := Min(buf.Remaining(), |content| - taken);
      if room == 0 {
        return Ready;
      }
      var n :| 1 <= n <= room;
      buf.Put(content[taken..taken + n]);
      taken := taken + n;
      return Ready;
    }
  }

  /**
   Any `AsyncWrite`: each poll may be pending, fail, or accept any part of what it is
   offered, none of it included. `accepted` is everything it has taken, and `balked`
   tells that it once took nothing of a non-empty offer.
   */
  class Sink {
    var accepted: Bytes
    var stalls: nat
    var failure: Option<IoKind>
    ghost var balked: bool

    constructor (accepted: Bytes, stalls: nat)
      ensures this.accepted == accepted && this.stalls == stalls && failure == None && !balked
    {
      this.accepted, this.stalls, failure, balked := accepted, stalls, None, false;
    }

    method PollWrite(data: Bytes) returns (p: Poll, count: nat)
      modifies this
      ensures count <= |data| && accepted == old(accepted) + data[..count]
      ensures !p.Ready? ==> count == 0
      ensures stalls <= old(stalls) && (p.Pending? ==> stalls < old(stalls))
      ensures p.Failed? ==> failure.Some? && p.error == Plain(failure.value)
      ensures !p.Failed? ==> failure == old(failure)
      ensures balked <==> old(balked) || (p.Ready? && count == 0 && data != [])
    {
      count := 0;
      if stalls > 0 {
        if * {
          stalls := stalls - 1;
          return Pending, 0;
        }
      }
      if * {
        var kind: IoKind := *;
        failure := Some(kind);
        return Failed(Plain(kind)), 0;
      }
      count :| 0 <= count <= |data|;
      accepted := accepted + data[..count];
      balked := balked || (count == 0 && data != []);
      p := Poll.Ready;
    }

    method PollShutdown() returns (p: Poll)
      modifies this
      ensures accepted == old(accepted) && balked == old(balked)
      ensures stalls <= old(stalls) && (p.Pending? ==> stalls < old(stalls))
      ensures p.Failed? ==> failure.Some? && p.error == Plain(failure.value)
    {
      var count;
      p, count := PollWrite([]);
    }
  }
}
