/**
 The incremental header guard: a resumable state machine that passes a decoded tar
 stream through while re-framing it, proved to refine the one-shot `Framing.Frame`.
 */
module Guard {
  import opened Base
  import opened Errors
  import opened Streams
  import opened Caps
  import opened F = Framing
  import Pax

  class HeaderGuard {
    const inner: Cap
    const cfg: Config
    const header: array<byte>
    var filled: nat
    var emitted: nat
    var dataRemaining: u64
    var nextData: u64
    var nextTrailer: bool
    var trailer: bool
    var paxBody: Option<Bytes>
    var paxRemaining: u64
    var paxSize: Option<u64>

    /** Bytes passed on to the caller. */
    ghost var taken: nat
    /** The headers inspected since the last error, and where the current one starts. */
    ghost var log: seq<Record>
    ghost var start: nat
    /** How many errors of its own the guard has raised. They are not sticky. */
    ghost var errors: nat
    /** What the guard is framing: the whole input, and after an error what is left of it. */
    ghost var aim: Framing
    /** The framing of the whole input, with which every run must agree up to the first error. */
    ghost const goal: Framing
    /** The decoded stream underneath, all of it. */
    ghost const input: Bytes

    ghost function Footprint(): set<object> {
      inner.Footprint() + {this, header}
    }

    ghost function Source(): Source {
      inner.Source()
    }

    /** How many bytes a caller gets before the clean end or the guard's next error. */
    ghost function Reach(): nat
      reads this
    {
      Deliverable(aim.stop, input)
    }

    /** Bytes pulled from the inner reader: those passed on and those still held. */
    ghost function Pulled(): int
      reads this
    {
      taken + (filled - emitted)
    }

    ghost predicate Valid()
      reads Footprint()
    {
      && ReadsPax(cfg) && input == inner.Whole() && goal == Frame(cfg, input, 0, None)
      && inner.Valid() && Conserves() && Frugal() && emitted < BLOCK && Tracks()
      && (errors == 0 ==> aim == goal && !Holds()) && Carries()
    }

    /** Bytes pulled are the bytes emitted followed by `header[emitted..filled]`. */
    ghost predicate Conserves()
      reads Footprint()
    {
      && header.Length == BLOCK && emitted <= filled <= BLOCK && (emitted > 0 ==> filled == BLOCK)
      && Pulled() == inner.taken <= |input|
      && header[emitted..filled] == input[taken..inner.taken]
      && (dataRemaining > 0 || trailer ==> filled == 0)
    }

    /** The guard's only growing buffer is bounded, even after an error. */
    ghost predicate Frugal()
      reads this
    {
      paxBody.Some? ==> |paxBody.value| + paxRemaining <= cfg.maxMetadata
    }

    /** What has been read so far and what is left to frame make up the framing aimed at. */
    ghost predicate Tracks()
      reads this
    {
      if trailer then
        filled == 0 && dataRemaining == 0 && paxBody == None && log == aim.records && aim.stop.Trailer?
      else if dataRemaining > 0 then
        filled == 0 && nextData == 0 && !nextTrailer && InRecord(dataRemaining)
      else if emitted > 0 then
        Inspected()
      else
        AtHeader()
    }

    /**
     Collecting the header that starts at `start`, or holding one that was rejected. Only
     a header that will be rejected again can have left a PAX body open.
     */
    ghost predicate AtHeader()
      reads this
    {
      && nextData == 0 && !nextTrailer && start == taken
      && aim == Prepend(log, Frame(cfg, input, start, paxSize))
      && (paxBody.Some? ==> filled == BLOCK && Rejects(paxSize) && input[taken + KIND_OFFSET] == PAX)
    }

    /** Before any error, the pending override is the one in force behind the records completed. */
    ghost predicate Carries()
      reads this
    {
      errors == 0 ==>
        && (paxBody.Some? ==> log != [])
        && paxSize == InForce(cfg, input, log, if paxBody.Some? then |log| - 1 else |log|, None)
    }

    /** The header block that starts at `taken` is complete in the input and rejected under `pending`. */
    ghost predicate Rejects(pending: Option<u64>)
      reads this
    {
      taken + BLOCK <= |input| && F.Inspect(cfg, input[taken..taken + BLOCK], pending).Reject?
    }

    /**
     What the guard does after its error `e`, raised under the override `before`: it frames
     on from where it stands. A rejected header is still held, to be inspected again under
     the override its inspection left; behind a bad PAX body the next header is collected
     under the override from before that record.
     */
    ghost predicate Restarted(e: IoError, before: Option<u64>)
      reads this, header
    {
      && log == [] && aim == Frame(cfg, input, taken, paxSize)
      && emitted == dataRemaining == 0 && !trailer
      && if filled == BLOCK then
           && header.Length == BLOCK && taken + BLOCK <= |input| && header[..] == input[taken..taken + BLOCK]
           && F.Inspect(cfg, header[..], before) == Reject(e) && paxSize == Leftover(cfg, header[..], before)
         else
           filled == 0 && paxBody == None && paxSize == before
    }

    /** The collected header has been accepted, and none of the data behind it has been pulled. */
    ghost predicate Inspected()
      reads this
    {
      if nextTrailer then
        nextData == 0 && paxBody == None && log == aim.records && aim.stop.Trailer?
      else
        InRecord(nextData) && Pulled() == log[|log| - 1].Data()
    }

    /** The header of the last logged record has been read and `left` bytes of its data remain. */
    ghost predicate InRecord(left: nat)
      reads this
    {
      && log != []
      && var r := log[|log| - 1];
      && r.Data() <= |input| && left <= r.Skip() && Pulled() == r.End() - left
      && (r.kind == PAX ==> r.size == r.raw <= cfg.maxMetadata)
      && aim == Prepend(log, After(cfg, input, r, paxSize))
      && Captures(r, r.Skip() - left)
    }

    /** After `passed` data bytes of `r`, a PAX body holds exactly the first `raw` of them. */
    ghost predicate Captures(r: Record, passed: nat)
      reads this
    {
      && (paxBody.Some? <==> r.kind == PAX)
      && (paxBody.Some? ==>
        && |paxBody.value| == Min(r.raw, passed) && |paxBody.value| + paxRemaining == r.raw
        && r.Data() + |paxBody.value| <= |input|
        && paxBody.value == input[r.Data()..r.Data() + |paxBody.value|])
    }

    /** An error of the guard's own: the fault its framing ends with, at the offset it is raised. */
    ghost predicate Raised(e: IoError, logged: seq<Record>, aimed: Framing, before: Option<u64>, raised: nat)
      reads this, header
    {
      && errors == raised + 1 && aimed == Framing(logged, Fault(taken, e)) && Restarted(e, before)
      && (raised == 0 ==> LeavesBehind(cfg, input, logged, taken, e, paxSize))
    }

    constructor (inner: Cap, cfg: Config)
      requires inner.Valid() && inner.taken == 0 && ReadsPax(cfg)
      ensures Valid() && this.inner == inner && this.cfg == cfg && fresh(header)
      ensures taken == 0 && errors == 0 && log == [] && input == inner.Whole()
    {
      this.inner, this.cfg := inner, cfg;
      input, goal := inner.Whole(), Frame(cfg, inner.Whole(), 0, None);
      header := new byte[BLOCK](i => 0);
      filled, emitted, dataRemaining, nextData := 0, 0, 0, 0;
      nextTrailer, trailer, paxBody, paxRemaining, paxSize := false, false, None, 0, None;
      taken, log, start, errors, aim := 0, [], 0, 0, Frame(cfg, inner.Whole(), 0, None);
      new;
      PrependNothing(Frame(cfg, input, 0, None));
    }

    lemma TakenWithinInput()
      requires Valid()
      ensures taken <= |input| && goal == Frame(cfg, input, 0, None) && (errors == 0 ==> aim == goal)
    {
    }

    /**
     While a PAX body is open, it holds exactly the first bytes of the record's data, what
     is kept and what is still wanted make up the declared size, that size is within the
     metadata limit, and no more is wanted than data is left.
     */
    lemma CaptureIsExact()
      requires Valid() && paxBody.Some? && (errors > 0 ==> !Holds())
      ensures log != [] && var r := log[|log| - 1];
        && |paxBody.value| + paxRemaining == r.raw <= cfg.maxMetadata
        && r.Data() + |paxBody.value| <= |input|
        && paxBody.value == input[r.Data()..r.Data() + |paxBody.value|]
        && paxRemaining <= (if dataRemaining > 0 then dataRemaining else nextData)
    {
      var r := log[|log| - 1];
      assert r.raw <= r.Skip();
    }

    /** The guard has passed on no more than it should. */
    lemma TakenWithinReach()
      requires Valid()
      ensures taken <= Reach() <= |input|
    {
      StopBounds(cfg, input, 0, None);
      if !trailer {
        if dataRemaining > 0 || (emitted > 0 && !nextTrailer) {
          AfterBounds(cfg, input, log[|log| - 1], paxSize);
        } else if emitted == 0 {
          StopBounds(cfg, input, start, paxSize);
        }
      }
    }

    /** The fill loop: collect header bytes until the block is complete or the input ends. */
    method FillHeader() returns (p: Poll)
      requires inner.Valid() && input == inner.Whole() && Conserves() && dataRemaining == 0 && !trailer
      requires Tracks() && Carries()
      modifies this`filled, header, inner.Footprint()
      ensures inner.Valid() && Conserves() && Tracks() && Carries()
      ensures old(filled) <= filled <= BLOCK && (p.Ready? && filled < BLOCK ==> inner.AtEnd())
      ensures filled == BLOCK ==> p.Ready?
      ensures Source().stalls <= old(Source().stalls) && (p.Pending? ==> Source().stalls < old(Source().stalls))
      ensures p.Failed? && !old(inner.failed) ==> inner.Failure(p.error)
      ensures !p.Failed? ==> inner.failed == old(inner.failed)
    {
      hide Frame, F.Inspect, InForce, HeaderGuard.Captures;
      while filled < BLOCK
        invariant inner.Valid() && Conserves() && old(filled) <= filled && Tracks() && Carries()
        invariant Source().stalls <= old(Source().stalls)
        invariant inner.failed == old(inner.failed)
        decreases BLOCK - filled
      {
        var count;
        p, count := FillOnce();
        if !p.Ready? || count == 0 { return; }
      }
      p := Ready;
    }

    /** One poll of the inner reader into a buffer of `room` bytes. */
    method Pull(room: nat) returns (p: Poll, bytes: Bytes)
      requires inner.Valid() && input == inner.Whole() && 0 < room
      modifies inner.Footprint()
      ensures inner.Valid() && |bytes| <= room && old(inner.taken) + |bytes| == inner.taken <= |input|
      ensures bytes == input[old(inner.taken)..inner.taken]
      ensures !p.Ready? ==> bytes == []
      ensures p.Ready? && bytes == [] ==> inner.AtEnd()
      ensures Source().stalls <= old(Source().stalls) && (p.Pending? ==> Source().stalls < old(Source().stalls))
      ensures p.Failed? && !old(inner.failed) ==> inner.Failure(p.error)
      ensures !p.Failed? ==> inner.failed == old(inner.failed)
    {
      var read := new ReadBuf(room);
      p := inner.PollRead(read);
      bytes := read.filled;
    }

    /** One turn of the fill loop: a single poll of the inner reader. */
    method FillOnce() returns (p: Poll, count: nat)
      requires inner.Valid() && input == inner.Whole() && Conserves()
      requires filled < BLOCK && dataRemaining == 0 && !trailer
      modifies this`filled, header, inner.Footprint()
      ensures inner.Valid() && Conserves() && filled == old(filled) + count
      ensures !p.Ready? ==> count == 0
      ensures p.Ready? && count == 0 ==> inner.AtEnd()
      ensures Source().stalls <= old(Source().stalls) && (p.Pending? ==> Source().stalls < old(Source().stalls))
      ensures p.Failed? && !old(inner.failed) ==> inner.Failure(p.error)
      ensures !p.Failed? ==> inner.failed == old(inner.failed)
    {
      ghost var before := inner.taken;
      var bytes;
      p, bytes := Pull(BLOCK - filled);
      count := |bytes|;
      Join(input, taken, before, inner.taken);
      Store(bytes);
    }

    /** Copy freshly read bytes behind those already in the header block. */
    method Store(bytes: Bytes)
      requires header.Length == BLOCK && emitted <= filled && filled + |bytes| <= BLOCK
      modifies this`filled, header
      ensures filled == old(filled) + |bytes|
      ensures header[emitted..filled] == old(header[emitted..filled]) + bytes
    {
      forall i | 0 <= i < |bytes| {
        header[filled + i] := bytes[i];
      }
      filled := filled + |bytes|;
    }

    /** `HeaderGuard::inspect`: carry out the decision on the complete header block. */
    method Inspect() returns (e: Option<IoError>)
      requires header.Length == BLOCK && Frugal()
      modifies this`nextTrailer, this`paxBody, this`paxRemaining, this`paxSize, this`nextData
      ensures Frugal()
      ensures paxSize == Leftover(cfg, header[..], old(paxSize))
      ensures var v := F.Inspect(cfg, header[..], old(paxSize));
        match v
        case Zero => e == None && nextTrailer && unchanged(this`paxBody, this`paxRemaining, this`paxSize, this`nextData)
        case Reject(error) =>
          && e == Some(error) && unchanged(this`nextTrailer, this`nextData)
          && if OpensCapture(cfg, header[..]) then paxBody == Some([]) && Some(paxRemaining) == cfg.size(header[..])
             else unchanged(this`paxBody, this`paxRemaining)
        case Framed(kind, raw, size) =>
          && e == None && nextTrailer == old(nextTrailer) && nextData == RoundUp(size)
          && if kind == PAX then paxBody == Some([]) && paxRemaining == raw
             else unchanged(this`paxBody, this`paxRemaining)
    {
      var block := header[..];
      if AllZero(block) {
        nextTrailer := true;
        return None;
      }
      var kind := block[KIND_OFFSET];
      if !Allowed(kind) {
        return Some(Wrapped(InvalidData, DisallowedEntryType));
      }
      var parsed := cfg.size(block);
      if parsed.None? {
        return Some(MalformedIo());
      }
      var rawSize := parsed.value;
      if Extension(kind) && rawSize > cfg.maxMetadata {
        return Some(CapError("max_metadata_bytes"));
      }
      if kind == PAX {
        paxBody, paxRemaining := Some([]), rawSize;
      }
      var size := rawSize;
      if !Extension(kind) {
        size, paxSize := paxSize.GetOr(rawSize), None;
      }
      if size + 511 > U64_MAX {
        return Some(MalformedIo());
      }
      nextData := RoundUp(size);
      return None;
    }

    /** Inspection together with the record of it: the decision is the one framing makes. */
    method Decide() returns (e: Option<IoError>)
      requires header.Length == filled == BLOCK && emitted == 0 && taken + BLOCK <= |input| && Frugal()
      requires header[..] == input[taken..taken + BLOCK]
      requires AtHeader() && dataRemaining == 0 && !trailer && Carries() && (errors == 0 ==> paxBody == None)
      modifies this`nextTrailer, this`paxBody, this`paxRemaining, this`paxSize, this`nextData
      modifies this`log, this`start, this`aim, this`errors
      ensures Frugal()
      ensures e == None ==> Inspected() && Carries() && aim == old(aim) && errors == old(errors)
      ensures e.Some? ==> Raised(e.value, old(log), old(aim), old(paxSize), old(errors)) && AtHeader()
    {
      ghost var pending := paxSize;
      ghost var verdict := F.Inspect(cfg, header[..], pending);
      HeaderStep(cfg, input, log, start, pending);
      assert errors == 0 && verdict.Reject? ==>
        LeavesBehind(cfg, input, log, start, verdict.error, Leftover(cfg, header[..], pending));
      hide Frame, After, Pax.Read, InForce, LeavesBehind;
      e := Inspect();
      match verdict
      case Zero =>
      case Framed(kind, raw, size) => LogHeader(Record(start, kind, raw, size), pending);
      case Reject(_) => StartOver();
    }

    /** Log the header just accepted under the override `pending`. */
    ghost method LogHeader(r: Record, pending: Option<u64>)
      requires filled == BLOCK && emitted == 0 && !nextTrailer && r.Data() <= |input| && r.offset == start == taken
      requires nextData == r.Skip() && (r.kind == PAX ==> r.size == r.raw <= cfg.maxMetadata)
      requires paxSize == (if Extension(r.kind) then pending else None)
      requires aim == Prepend(log + [r], After(cfg, input, r, paxSize))
      requires if r.kind == PAX then paxBody == Some([]) && paxRemaining == r.raw else paxBody == None
      requires errors == 0 ==> pending == InForce(cfg, input, log, |log|, None)
      modifies this`log
      ensures Inspected() && Carries()
    {
      hide After, Prepend;
      InForceStep(cfg, input, log, r, None);
      log := log + [r];
      assert log[|log| - 1] == r;
      assert Captures(r, 0);
    }

    /** After an error, frame on from where the guard stands. */
    ghost method StartOver()
      modifies this`log, this`start, this`aim, this`errors
      ensures errors == old(errors) + 1 && log == [] && start == taken
      ensures aim == Frame(cfg, input, taken, paxSize) == Prepend(log, Frame(cfg, input, start, paxSize))
    {
      errors, log, start, aim := errors + 1, [], taken, Frame(cfg, input, taken, paxSize);
      PrependNothing(aim);
    }

    /** The end of a record's data: parse a captured PAX body and move to the next header. */
    method FinishData() returns (e: Option<IoError>)
      requires ReadsPax(cfg) && Frugal() && filled == emitted == 0 && dataRemaining == 0 && taken <= |input|
      requires trailer == nextTrailer && if trailer then paxBody == None else InRecord(0)
      requires Carries()
      modifies this`paxBody, this`paxSize, this`start, this`log, this`aim, this`errors
      ensures paxBody == None && (e == None ==> Carries())
      ensures (old(paxBody) == None || old(paxBody) == Some([])) ==> e == None
      ensures e == None ==> errors == old(errors) && aim == old(aim) && log == old(log)
      ensures e == None && !nextTrailer ==> start == taken && aim == Prepend(log, Frame(cfg, input, start, paxSize))
      ensures e.Some? ==> !nextTrailer && start == taken && old(PaxEndsAt(aim, taken))
      ensures e.Some? ==> Raised(e.value, old(log), old(aim), old(paxSize), old(errors))
    {
      if !nextTrailer {
        CapturedWhole();
        start := taken;
      }
      hide Frame, After, Pax.Read, F.Inspect, Leftover, InForce, LeavesBehind, HeaderGuard.InRecord;
      e := None;
      if paxBody.Some? {
        e := FinishPax();
      }
    }

    /** What a captured body means for what is left to frame and for the override behind it. */
    ghost predicate Meant(body: Bytes, at: nat)
      reads this
    {
      match cfg.pax(body)
      case Err(e) =>
        && aim == Framing(log, Fault(at, e)) && PaxEndsAt(aim, at)
        && LeavesBehind(cfg, input, log, at, e, InForce(cfg, input, log, |log| - 1, None))
      case Ok(size) =>
        && aim == Prepend(log, Frame(cfg, input, at, size))
        && size == InForce(cfg, input, log, |log|, None)
    }

    /** Parse a captured PAX body for the override it carries. */
    method FinishPax() returns (e: Option<IoError>)
      requires ReadsPax(cfg) && filled == emitted == 0 && dataRemaining == 0 && !trailer && start == taken
      requires paxBody.Some? && log != [] && Meant(paxBody.value, taken)
      requires errors == 0 ==> paxSize == InForce(cfg, input, log, |log| - 1, None)
      modifies this`paxBody, this`paxSize, this`start, this`log, this`aim, this`errors
      ensures paxBody == None && start == taken && (old(paxBody) == Some([]) ==> e == None)
      ensures e == None ==> errors == old(errors) && aim == old(aim) && log == old(log) && Carries()
      ensures e == None ==> aim == Prepend(log, Frame(cfg, input, taken, paxSize))
      ensures e.Some? ==> old(PaxEndsAt(aim, taken))
      ensures e.Some? ==> Raised(e.value, old(log), old(aim), old(paxSize), old(errors))
    {
      hide Frame, F.Inspect, Leftover, InForce, LeavesBehind, Prepend, PaxEndsAt;
      var body := paxBody.value;
      assert cfg.pax(body) == Pax.Read(body);
      if body == [] { assert Pax.Read(body).Ok?; }
      hide Pax.Read;
      paxBody := None;
      var size := Pax.ParsePaxSize(body);
      if size.Err? {
        StartOver();
        return Some(size.error);
      }
      paxSize := size.value;
      return None;
    }

    /** At the end of a record's data, what is left to frame depends on the captured body alone. */
    lemma CapturedWhole()
      requires InRecord(0) && Pulled() <= |input|
      ensures paxBody == None ==> aim == Prepend(log, Frame(cfg, input, Pulled(), paxSize))
      ensures paxBody.Some? ==> Meant(paxBody.value, Pulled())
    {
      var r := log[|log| - 1];
      DataStep(cfg, input, log, r, paxSize);
      assert Pulled() == r.End();
      assert paxBody.Some? ==> |paxBody.value| == r.raw;
    }

    /** Inspect a complete header once, then pass on part of it and, at its end, enter its data. */
    method PassHeader(out: ReadBuf) returns (p: Poll)
      requires ReadsPax(cfg) && Frugal() && Conserves() && filled == BLOCK && emitted < BLOCK
      requires out.Valid() && out.Remaining() > 0 && !trailer && dataRemaining == 0
      requires if emitted > 0 then Inspected() else AtHeader()
      requires Carries() && (errors == 0 && emitted == 0 ==> paxBody == None)
      modifies this, out
      ensures Conserves() && Frugal() && emitted < BLOCK && Tracks() && Carries()
      ensures out.Valid() && old(taken) <= taken
      ensures out.filled == old(out.filled) + input[old(taken)..taken]
      ensures p.Ready? ==> taken > old(taken) && errors == old(errors) && aim == old(aim) && !Holds()
      ensures !p.Pending?
      ensures p.Failed? ==> taken == old(taken) && errors == old(errors) + 1 && Holds()
      ensures p.Failed? ==> Raised(p.error, old(log), old(aim), old(paxSize), old(errors))
    {
      hide Frame, After, F.Inspect, Leftover, Pax.Read, InForce, LeavesBehind;
      hide HeaderGuard.Restarted, HeaderGuard.Captures;
      if emitted == 0 {
        assert header[..] == header[emitted..filled];
        var e := Decide();
        if e.Some? { return Failed(e.value); }
      }
      var count := Min(out.Remaining(), BLOCK - emitted);
      PutHeader(out, count);
      if emitted == BLOCK {
        LeaveHeader();
      }
      return Ready;
    }

    /**
     The whole header is out: enter the data behind it, or the trailer. Behind an empty PAX
     body the record ends here, and an empty body is never bad.
     */
    method LeaveHeader()
      requires ReadsPax(cfg) && Frugal() && emitted == filled == BLOCK && !trailer && dataRemaining == 0
      requires 0 <= Pulled() <= |input| && Inspected() && Carries()
      modifies this`filled, this`emitted, this`dataRemaining, this`nextData, this`trailer
      modifies this`paxBody, this`paxSize, this`start, this`log, this`aim, this`errors
      ensures filled == 0 && emitted == 0 && Frugal() && Tracks() && Carries()
      ensures errors == old(errors) && aim == old(aim)
    {
      hide Frame, After, InForce, LeavesBehind;
      filled, emitted := 0, 0;
      dataRemaining, nextData := nextData, 0;
      trailer := nextTrailer;
      if dataRemaining == 0 {
        var e := FinishData();
        assert e == None;
      }
    }

    method PutHeader(out: ReadBuf, count: nat)
      requires Conserves() && filled == BLOCK && emitted + count <= BLOCK && dataRemaining == 0 && !trailer
      requires out.Valid() && 0 < count <= out.Remaining()
      modifies this`emitted, this`taken, out
      ensures Conserves() && out.Valid() && emitted == old(emitted) + count && taken == old(taken) + count
      ensures old(Inspected()) ==> Inspected()
      ensures out.filled == old(out.filled) + input[old(taken)..taken]
    {
      ghost var held := header[emitted..filled];
      assert header[emitted..emitted + count] == held[..count];
      assert header[emitted + count..filled] == held[count..];
      out.Put(header[emitted..emitted + count]);
      emitted, taken := emitted + count, taken + count;
    }

    /** Keep the first `paxRemaining` of the data bytes passing by, while a PAX body is open. */
    method Capture(bytes: Bytes, ghost passed: nat)
      requires Frugal()
      requires log != [] && var r := log[|log| - 1];
        && Captures(r, passed) && r.Data() + passed + |bytes| <= |input|
        && bytes == input[r.Data() + passed..r.Data() + passed + |bytes|]
      modifies this`paxBody, this`paxRemaining
      ensures Frugal() && (paxBody.Some? <==> old(paxBody).Some?)
      ensures Captures(log[|log| - 1], passed + |bytes|)
    {
      if paxBody.Some? {
        var keep := Min(|bytes|, paxRemaining);
        paxBody := Some(paxBody.value + bytes[..keep]);
        paxRemaining := paxRemaining - keep;
      }
    }

    /** Count data bytes as passed on, capturing a PAX body on the way. */
    method Advance(bytes: Bytes)
      requires Frugal() && |bytes| <= dataRemaining && filled == emitted && taken + |bytes| <= |input|
      requires bytes == input[taken..taken + |bytes|]
      requires InRecord(dataRemaining)
      modifies this`paxBody, this`paxRemaining, this`taken, this`dataRemaining
      ensures taken == old(taken) + |bytes| && dataRemaining == old(dataRemaining) - |bytes|
      ensures Frugal() && InRecord(dataRemaining) && (paxBody.Some? <==> old(paxBody).Some?)
    {
      Capture(bytes, log[|log| - 1].Skip() - dataRemaining);
      taken := taken + |bytes|;
      dataRemaining := dataRemaining - |bytes|;
    }

    /** Hand data bytes to the caller, and close the record when they are its last. */
    method PassData(out: ReadBuf, bytes: Bytes) returns (e: Option<IoError>)
      requires ReadsPax(cfg) && Frugal() && header.Length == BLOCK && filled == emitted == 0 && !trailer
      requires 0 < |bytes| <= dataRemaining && taken + |bytes| <= |input|
      requires bytes == input[taken..taken + |bytes|]
      requires out.Valid() && |bytes| <= out.Remaining()
      requires Tracks() && Carries()
      modifies this`paxBody, this`paxRemaining, this`taken, this`dataRemaining
      modifies this`paxSize, this`start, this`log, this`aim, this`errors, out
      ensures out.Valid() && out.filled == old(out.filled) + bytes
      ensures taken == old(taken) + |bytes| && dataRemaining == old(dataRemaining) - |bytes|
      ensures Frugal() && Tracks() && Carries()
      ensures e == None ==> errors == old(errors) && aim == old(aim)
      ensures e.Some? ==> errors == old(errors) + 1 && PaxEndsHere(old(aim), old(taken))
      ensures e.Some? ==> Raised(e.value, old(log), old(aim), old(paxSize), old(errors))
    {
      hide Frame, After, F.Inspect, Leftover, Pax.Read, InForce, LeavesBehind;
      out.Put(bytes);
      Advance(bytes);
      e := None;
      if dataRemaining == 0 {
        e := FinishData();
      }
    }

    /** `read_data`: pass on data bytes, capturing a PAX body on the way. */
    method ReadData(out: ReadBuf) returns (p: Poll)
      requires Valid() && out.Valid() && out.Remaining() > 0 && !trailer && dataRemaining > 0
      modifies Footprint(), out
      ensures Valid() && out.Valid() && old(taken) <= taken
      ensures out.filled == old(out.filled) + input[old(taken)..taken]
      ensures p.Pending? ==> taken == old(taken)
      ensures p.Ready? && taken == old(taken) ==> inner.AtEnd() && AtEof()
      ensures Source().stalls <= old(Source().stalls) && (p.Pending? ==> Source().stalls < old(Source().stalls))
      ensures errors == old(errors) ==> aim == old(aim)
      ensures p.Failed? && errors == old(errors) ==>
        taken == old(taken) && filled < BLOCK && (!old(inner.failed) ==> inner.Failure(p.error))
      ensures taken == old(taken) && errors == old(errors) ==>
        old(filled) <= filled && unchanged(this`log, this`paxSize, this`emitted, this`dataRemaining, this`trailer)
      ensures errors == old(errors) || (p.Failed? && Raised(p.error, old(log), old(aim), old(paxSize), old(errors)))
      ensures errors > old(errors) && taken > old(taken) ==> PaxEndsHere(old(aim), old(taken))
      ensures !p.Failed? || errors > old(errors) ==> inner.failed == old(inner.failed)
      ensures errors > old(errors) && taken == old(taken) ==> Holds()
    {
      hide Frame, After, F.Inspect, Leftover, Pax.Read, InForce, LeavesBehind;
      hide HeaderGuard.Raised, HeaderGuard.PaxEndsHere, HeaderGuard.Tracks;
      var bytes;
      p, bytes := Pull(Min(out.Remaining(), dataRemaining));
      if p.Ready? {
        if bytes == [] {
          EofInData();
        } else {
          var e := PassData(out, bytes);
          if e.Some? { p := Failed(e.value); }
        }
      }
    }

    /**
     One poll of the guard. Whatever the chunking, the bytes passed on are the input
     bytes in order; up to its first error the guard logs exactly the framing of the
     whole input, its first error is the framing's fault at the framing's offset, and
     it reports the end only where framing was cut short or found the trailer.
     */
    method PollRead(out: ReadBuf) returns (p: Poll)
      requires Valid() && out.Valid()
      modifies Footprint(), out
      ensures Valid() && out.Valid() && old(taken) <= taken
      ensures out.filled == old(out.filled) + input[old(taken)..taken]
      ensures p.Pending? ==> taken == old(taken)
      ensures p.Ready? && taken == old(taken) ==>
        |out.filled| == out.capacity || (inner.AtEnd() && AtEof())
      ensures Source().stalls <= old(Source().stalls) && (p.Pending? ==> Source().stalls < old(Source().stalls))
      ensures errors == old(errors) ==> aim == old(aim)
      ensures p.Failed? && errors == old(errors) ==>
        taken == old(taken) && filled < BLOCK && (!old(inner.failed) ==> inner.Failure(p.error))
      ensures taken == old(taken) && errors == old(errors) ==>
        old(filled) <= filled && unchanged(this`log, this`paxSize, this`emitted, this`dataRemaining, this`trailer)
      ensures errors == old(errors) || (p.Failed? && Raised(p.error, old(log), old(aim), old(paxSize), old(errors)))
      ensures errors > old(errors) && taken > old(taken) ==> PaxEndsHere(old(aim), old(taken))
      ensures old(Holds()) && old(out.Remaining()) > 0 ==> errors > old(errors) || (p.Ready? && taken > old(taken))
      ensures !p.Failed? || errors > old(errors) ==> inner.failed == old(inner.failed)
      ensures errors > old(errors) && taken == old(taken) ==> Holds()
    {
      if out.Remaining() == 0 {
        return Ready;
      }
      if trailer {
        p := PollTrailer(out);
      } else if dataRemaining > 0 {
        p := ReadData(out);
      } else {
        p := PollHeader(out);
      }
    }

    /** One poll into a caller buffer of `room` bytes. */
    method ReadSome(room: nat) returns (p: Poll, bytes: Bytes)
      requires Valid() && 0 < room
      modifies Footprint()
      ensures Valid() && old(taken) <= taken <= |input| && taken == old(taken) + |bytes| && |bytes| <= room
      ensures bytes == input[old(taken)..taken]
      ensures p.Pending? ==> bytes == []
      ensures p.Ready? && bytes == [] ==> inner.AtEnd() && AtEof()
      ensures Source().stalls <= old(Source().stalls) && (p.Pending? ==> Source().stalls < old(Source().stalls))
      ensures errors == old(errors) ==> aim == old(aim)
      ensures p.Failed? && errors == old(errors) ==>
        bytes == [] && filled < BLOCK && (!old(inner.failed) ==> inner.Failure(p.error))
      ensures bytes == [] && errors == old(errors) ==>
        old(filled) <= filled && unchanged(this`log, this`paxSize, this`emitted, this`dataRemaining, this`trailer)
      ensures errors == old(errors) || (p.Failed? && Raised(p.error, old(log), old(aim), old(paxSize), old(errors)))
      ensures errors > old(errors) && bytes != [] ==> PaxEndsHere(old(aim), old(taken))
      ensures old(Holds()) ==> errors > old(errors) || (p.Ready? && bytes != [])
      ensures !p.Failed? || errors > old(errors) ==> inner.failed == old(inner.failed)
      ensures errors > old(errors) && taken == old(taken) ==> Holds()
    {
      var buf := new ReadBuf(room);
      p := PollRead(buf);
      bytes := buf.filled;
    }

    /** Behind the trailer's zero block every byte passes straight through. */
    method PollTrailer(out: ReadBuf) returns (p: Poll)
      requires inner.Valid() && input == inner.Whole() && out.Valid() && taken == inner.taken
      modifies this`taken, inner.Footprint(), out
      ensures inner.Valid() && out.Valid() && old(taken) <= taken == inner.taken <= |input|
      ensures out.filled == old(out.filled) + input[old(taken)..taken]
      ensures !p.Ready? ==> taken == old(taken)
      ensures p.Ready? && taken == old(taken) ==> |out.filled| == out.capacity || inner.AtEnd()
      ensures Source().stalls <= old(Source().stalls) && (p.Pending? ==> Source().stalls < old(Source().stalls))
      ensures p.Failed? && !old(inner.failed) ==> inner.Failure(p.error)
      ensures !p.Failed? ==> inner.failed == old(inner.failed)
    {
      p := inner.PollRead(out);
      taken := inner.taken;
    }

    /** The rest of `poll_read`: collect a header, inspect it once, pass it on. */
    method PollHeader(out: ReadBuf) returns (p: Poll)
      requires Valid() && out.Valid() && out.Remaining() > 0 && !trailer && dataRemaining == 0
      modifies Footprint(), out
      ensures Valid() && out.Valid() && old(taken) <= taken
      ensures out.filled == old(out.filled) + input[old(taken)..taken]
      ensures p.Pending? ==> taken == old(taken)
      ensures p.Ready? && taken == old(taken) ==> inner.AtEnd() && AtEof()
      ensures Source().stalls <= old(Source().stalls) && (p.Pending? ==> Source().stalls < old(Source().stalls))
      ensures errors == old(errors) ==> aim == old(aim)
      ensures p.Failed? && errors == old(errors) ==>
        taken == old(taken) && filled < BLOCK && (!old(inner.failed) ==> inner.Failure(p.error))
      ensures taken == old(taken) && errors == old(errors) ==>
        old(filled) <= filled && unchanged(this`log, this`paxSize, this`emitted, this`dataRemaining, this`trailer)
      ensures errors == old(errors) || (p.Failed? && Raised(p.error, old(log), old(aim), old(paxSize), old(errors)))
      ensures errors > old(errors) && taken > old(taken) ==> PaxEndsHere(old(aim), old(taken))
      ensures old(Holds()) && old(out.Remaining()) > 0 ==> errors > old(errors) || (p.Ready? && taken > old(taken))
      ensures !p.Failed? || errors > old(errors) ==> inner.failed == old(inner.failed)
      ensures errors > old(errors) && taken == old(taken) ==> Holds()
    {
      hide Frame, After, F.Inspect, Leftover, Pax.Read, InForce, LeavesBehind;
      hide HeaderGuard.Raised, HeaderGuard.PaxEndsHere;
      hide HeaderGuard.Tracks, HeaderGuard.Carries, HeaderGuard.Conserves, HeaderGuard.AtEof, Cap.Failure;
      AtRest();
      TakenWithinInput();
      assert input[taken..taken] == [];
      p := FillHeader();
      if !p.Ready? { return; }
      if filled < BLOCK {
        EofInHeader();
        return;
      }
      InHeader();
      p := PassHeader(out);
    }

    /** Between polls, and before any error, no complete header waits and none has opened a capture. */
    lemma AtRest()
      requires Valid() && dataRemaining == 0 && !trailer
      ensures errors == 0 && emitted == 0 ==> paxBody == None
    {
    }

    lemma InHeader()
      requires Tracks() && dataRemaining == 0 && !trailer
      ensures if emitted > 0 then Inspected() else AtHeader()
    {
    }

    /** An error that came with bytes ends the data of the last record framed, and `before` lies inside it. */
    ghost predicate PaxEndsHere(aimed: Framing, before: nat)
      reads this
    {
      PaxEndsAt(aimed, taken) && aimed.records[|aimed.records| - 1].Data() <= before
    }

    static ghost predicate PaxEndsAt(aimed: Framing, at: nat) {
      && aimed.records != []
      && var r := aimed.records[|aimed.records| - 1];
      && r.kind == PAX && r.End() == at
    }

    /** Neither the guard nor the caps underneath have failed yet. */
    ghost predicate Clean()
      reads this, inner
    {
      errors == 0 && !inner.failed
    }

    /** A rejected header is held, or a complete one has not been inspected yet. */
    ghost predicate Holds()
      reads this
    {
      filled == BLOCK && emitted == dataRemaining == 0 && !trailer
    }

    /** The headers inspected so far are the first ones of the framing aimed at. */
    lemma LogIsPrefix()
      requires Valid()
      ensures log <= aim.records && goal == Frame(cfg, input, 0, None) && (errors == 0 ==> aim == goal)
    {
    }

    /** The input has ended: everything that gets through has, and every header was logged. */
    ghost predicate AtEof()
      reads this
    {
      taken == Reach() && log == aim.records && !aim.stop.Fault?
    }

    lemma EofInData()
      requires Tracks() && !trailer && dataRemaining > 0 && Pulled() == |input| && filled == emitted == 0
      ensures AtEof()
    {
      CutInData(cfg, input, log[|log| - 1], paxSize);
      assert log + [] == log;
    }

    lemma EofInHeader()
      requires Tracks() && !trailer && dataRemaining == 0 && filled < BLOCK
      requires Conserves() && inner.AtEnd() && input == inner.Whole()
      ensures AtEof()
    {
      assert log + [] == log;
    }
  }

  /**
   Read a fresh guard to its end or first error: a run with any pending answers, chunk
   sizes and caller buffer sizes. Unless the reader underneath fails, the bytes, the
   inspected headers `framed` and the first error with its offset are those of `Frame` on
   the whole input. Behind an error of its own the guard has resumed, under the override
   that the records before it and the kind of error leave behind.
   */
  method Drain(guard: HeaderGuard)
    returns (out: Bytes, error: Option<IoError>, ghost framed: seq<Record>)
    requires guard.Valid() && guard.taken == 0 && guard.errors == 0 && !guard.inner.failed
    modifies guard.Footprint()
    ensures guard.Valid() && out == guard.input[..guard.taken]
    ensures guard.goal == Frame(guard.cfg, guard.input, 0, None)
    ensures error == None ==>
      framed == guard.goal.records && !guard.goal.stop.Fault? && |out| == Deliverable(guard.goal.stop, guard.input)
    ensures error.Some? && guard.errors > 0 ==>
      && guard.goal == Framing(framed, Fault(|out|, error.value)) && Own(error.value)
      && guard.errors == 1 && Resumed(guard) && !guard.inner.failed
      && LeavesBehind(guard.cfg, guard.input, framed, |out|, error.value, guard.paxSize)
    ensures error.Some? && guard.errors == 0 ==>
      guard.inner.Failure(error.value) && !Own(error.value) && framed <= guard.goal.records
  {
    hide Frame, After, F.Inspect, InForce, LeavesBehind, Leftover, HeaderGuard.Valid;
    guard.LogIsPrefix();
    guard.TakenWithinInput();
    out, error, framed := [], None, [];
    while true
      invariant guard.Valid() && guard.errors == 0 && !guard.inner.failed
      invariant guard.taken <= |guard.input| && out == guard.input[..guard.taken]
      decreases |guard.input| - guard.taken, guard.Source().stalls
    {
      framed := guard.log;
      ghost var before := guard.paxSize;
      guard.LogIsPrefix();
      var room: nat :| 0 < room;
      var p, bytes := guard.ReadSome(room);
      out := out + bytes;
      if p.Failed? {
        error := Some(p.error);
        DrainError(guard, p.error, framed, before);
        return;
      }
      if p.Ready? && bytes == [] {
        framed := guard.log;
        return;
      }
    }
  }

  /** The errors the guard itself raises; no reader underneath reports one of them. */
  predicate Own(e: IoError) {
    && e.Wrapped?
    && (e.payload == DisallowedEntryType || e.payload == Malformed || e.payload == LimitExceeded("max_metadata_bytes"))
  }

  /** Every fault of a framing is an error of the guard's own. */
  lemma {:induction false} FaultIsOwn(cfg: Config, input: Bytes, at: nat, pending: Option<u64>)
    requires ReadsPax(cfg) && Frame(cfg, input, at, pending).stop.Fault?
    ensures Own(Frame(cfg, input, at, pending).stop.error)
    decreases |input| - at
  {
    hide Pax.Read;
    match Inspect(cfg, input[at..at + BLOCK], pending)
    case Reject(_) =>
    case Framed(kind, raw, size) =>
      var r := Record(at, kind, raw, size);
      if kind != PAX {
        FaultIsOwn(cfg, input, r.End(), if Extension(kind) then pending else None);
      } else if r.End() <= |input| {
        var body := input[r.Data()..r.Data() + raw];
        assert cfg.pax(body) == Pax.Read(body);
        match cfg.pax(body)
        case Err(_) => Pax.ReadIffGrammar(body);
        case Ok(next) => FaultIsOwn(cfg, input, r.End(), next);
      }
  }

  lemma DrainError(guard: HeaderGuard, e: IoError, logged: seq<Record>, before: Option<u64>)
    requires guard.Valid()
    requires guard.errors > 0 ==> guard.Raised(e, logged, guard.goal, before, 0)
    requires guard.errors == 0 ==> guard.inner.Failure(e)
    ensures Own(e) <==> guard.errors > 0
    ensures guard.errors > 0 ==> Resumed(guard)
  {
    hide Frame, After, F.Inspect;
    if guard.errors > 0 {
      ErrorResumes(guard, e, logged, guard.goal, before, 0);
      FaultIsOwn(guard.cfg, guard.input, 0, None);
    }
    assert "max_metadata_bytes"[4] == 'm' && "max_total_bytes"[4] == 't' && "max_compression_ratio"[4] == 'c';
  }

  // ----- Errors are not final -----

  /** A guard that stands before a header, having logged nothing since its last error. */
  ghost predicate Resumed(g: HeaderGuard)
    reads g.Footprint()
  {
    && g.Valid() && g.log == [] && g.aim == Frame(g.cfg, g.input, g.taken, g.paxSize)
    && g.emitted == g.dataRemaining == 0 && !g.trailer
  }

  /** After any error of its own, a header rejected or a PAX body not understood, the guard has resumed. */
  lemma ErrorResumes(g: HeaderGuard, e: IoError, logged: seq<Record>, aimed: Framing, before: Option<u64>, raised: nat)
    requires g.Valid() && g.Raised(e, logged, aimed, before, raised)
    ensures Resumed(g)
  {
  }

  /** Framing faults before its first record exactly where it stands before a rejected header. */
  lemma FaultAtOnce(cfg: Config, input: Bytes, at: nat, pending: Option<u64>)
    requires at <= |input|
    ensures var f := Frame(cfg, input, at, pending);
      if at + BLOCK <= |input| && Inspect(cfg, input[at..at + BLOCK], pending).Reject?
      then f == Framing([], Fault(at, Inspect(cfg, input[at..at + BLOCK], pending).error))
      else f.records == [] ==> !f.stop.Fault?
  {
  }

  /**
   Poll a resumed guard until it answers. It errs again exactly when the header it stands
   before is rejected, at the same offset and without a byte, unless the reader underneath
   fails; and a header already held cannot be lost to that.
   */
  method PollAgain(g: HeaderGuard) returns (p: Poll, bytes: Bytes)
    requires Resumed(g) && !g.inner.failed
    modifies g.Footprint()
    ensures g.Valid() && !p.Pending? && (old(g.errors) <= g.errors <= old(g.errors) + 1)
    ensures g.errors > old(g.errors) ==>
      && p.Failed? && old(g.Rejects(g.paxSize)) && bytes == [] && g.taken == old(g.taken)
      && Resumed(g) && g.Holds() && !g.inner.failed
      && g.paxSize == Leftover(g.cfg, g.input[g.taken..g.taken + BLOCK], old(g.paxSize))
      && Inspect(g.cfg, g.input[g.taken..g.taken + BLOCK], old(g.paxSize)) == Reject(p.error)
    ensures p.Failed? ==> (g.errors > old(g.errors) <==> g.filled == BLOCK)
    ensures old(g.Rejects(g.paxSize)) && g.errors == old(g.errors) ==>
      p.Failed? && g.inner.Failure(p.error) && !old(g.Holds())
  {
    FaultAtOnce(g.cfg, g.input, g.taken, g.paxSize);
    g.TakenWithinInput();
    hide Frame, After, Inspect, Leftover, HeaderGuard.Valid;
    while true
      invariant Resumed(g) && !g.inner.failed && g.errors == old(g.errors)
      invariant g.taken == old(g.taken) && g.paxSize == old(g.paxSize) && (old(g.Holds()) ==> g.Holds())
      decreases g.Source().stalls
    {
      var room: nat :| 0 < room;
      p, bytes := g.ReadSome(room);
      if !p.Pending? { break; }
    }
    g.TakenWithinReach();
  }

  /**
   Go on polling a resumed guard, up to `n` times or until an answer is not an error of its
   own. Two such errors in a row mean that every later answer is one: they are final exactly
   when the header at hand is rejected both now and under the override that leaves.
   */
  method Insist(g: HeaderGuard, n: nat) returns (k: nat)
    requires Resumed(g) && !g.inner.failed
    modifies g.Footprint()
    ensures k <= n && g.errors == old(g.errors) + k
    ensures n >= 2 && k == n ==> old(Final(g.cfg, g.input, g.taken, g.paxSize))
    ensures old(Final(g.cfg, g.input, g.taken, g.paxSize)) ==>
      k == n || (k == 0 && !old(g.Holds()) && exists e :: g.inner.Failure(e))
    ensures k > 0 && k == n ==> g.taken == old(g.taken)
  {
    hide Resumed, Inspect, Leftover;
    ghost var block := if g.taken + BLOCK <= |g.input| then g.input[g.taken..g.taken + BLOCK] else [];
    k := 0;
    while k < n
      invariant k <= n && g.errors == old(g.errors) + k && Resumed(g) && !g.inner.failed && g.taken == old(g.taken)
      invariant k == 0 ==> g.paxSize == old(g.paxSize) && g.Holds() == old(g.Holds())
      invariant k > 0 ==> old(g.Rejects(g.paxSize)) && g.Holds() && g.paxSize == Leftover(g.cfg, block, old(g.paxSize))
      invariant k > 1 ==> old(Final(g.cfg, g.input, g.taken, g.paxSize))
    {
      if k > 0 { LeftoverTwice(g.cfg, block, old(g.paxSize)); }
      var p, bytes := PollAgain(g);
      if !p.Failed? || g.filled < BLOCK { return; }
      k := k + 1;
    }
  }

  /**
   A whole run past the first error: drain a fresh guard and, when the error is its own,
   go on polling. The error is the framing's, at its offset and behind its records; and it is
   final exactly when the complete header at that offset is rejected under the override
   `left` behind and once more under the override that leaves.
   */
  method DrainThenInsist(guard: HeaderGuard, n: nat)
    returns (out: Bytes, error: Option<IoError>, k: nat, ghost framed: seq<Record>, ghost left: Option<u64>)
    requires guard.Valid() && guard.taken == 0 && guard.errors == 0 && !guard.inner.failed
    modifies guard.Footprint()
    ensures error.Some? && Own(error.value) ==>
      && guard.goal == Framing(framed, Fault(|out|, error.value)) && k <= n && guard.errors == k + 1
      && LeavesBehind(guard.cfg, guard.input, framed, |out|, error.value, left)
      && (n >= 2 && k == n ==> Final(guard.cfg, guard.input, |out|, left))
      && (Final(guard.cfg, guard.input, |out|, left) ==> k == n || (k == 0 && exists e :: guard.inner.Failure(e)))
    ensures error.Some? && !Own(error.value) ==> framed <= guard.goal.records
    ensures error == None ==> framed == guard.goal.records && !guard.goal.stop.Fault?
  {
    hide Frame, After, Resumed, LeavesBehind, Final;
    out, error, framed := Drain(guard);
    left, k := guard.paxSize, 0;
    if error.Some? && Own(error.value) {
      k := Insist(guard, n);
    }
  }

  /**
   What a whole run comes to, in bytes and numbers. Without an error everything has been passed
   on, save a partial header when there is no trailer. A refused entry type is reported where
   the type byte is none of the nine that are let through, and a breach of the metadata limit
   where an extension is above it.
   */
  method DrainInNumbers(guard: HeaderGuard) returns (out: Bytes, error: Option<IoError>)
    requires guard.Valid() && guard.taken == 0 && guard.errors == 0 && !guard.inner.failed
    modifies guard.Footprint()
    ensures |out| <= |guard.input| && out == guard.input[..|out|]
    ensures error == None ==> |guard.input| < |out| + 512
    ensures error == None && guard.goal.stop.Trailer? ==> out == guard.input
    ensures error == Some(Wrapped(InvalidData, DisallowedEntryType)) ==>
      && |out| + 512 <= |guard.input|
      && guard.input[|out| + 156] !in {0, 48, 49, 50, 53, 55, 120, 76, 75}
    ensures error == Some(Wrapped(InvalidData, LimitExceeded("max_metadata_bytes"))) ==>
      && |out| + 512 <= |guard.input| && guard.input[|out| + 156] in {120, 76, 75}
      && guard.cfg.size(guard.input[|out|..|out| + 512]).Some?
      && guard.cfg.size(guard.input[|out|..|out| + 512]).value > guard.cfg.maxMetadata
  {
    ghost var framed;
    out, error, framed := Drain(guard);
    guard.TakenWithinInput();
    assert ReadsPax(guard.cfg);
    hide *;
    RunInNumbers(guard.cfg, guard.input, |out|, error);
  }

  lemma RunInNumbers(cfg: Config, input: Bytes, passed: nat, error: Option<IoError>)
    requires ReadsPax(cfg)
    requires var stop := Frame(cfg, input, 0, None).stop;
      && (error == None ==> !stop.Fault? && passed == Deliverable(stop, input))
      && (error.Some? && Own(error.value) ==> stop == Fault(passed, error.value))
    ensures error == None ==> |input| < passed + 512
    ensures error == None && Frame(cfg, input, 0, None).stop.Trailer? ==> passed == |input|
    ensures error == Some(Wrapped(InvalidData, DisallowedEntryType)) ==>
      passed + 512 <= |input| && input[passed + 156] !in {0, 48, 49, 50, 53, 55, 120, 76, 75}
    ensures error == Some(Wrapped(InvalidData, LimitExceeded("max_metadata_bytes"))) ==>
      && passed + 512 <= |input| && input[passed + 156] in {120, 76, 75}
      && cfg.size(input[passed..passed + 512]).Some? && cfg.size(input[passed..passed + 512]).value > cfg.maxMetadata
  {
    hide Frame, ReadsPax;
    var stop := Frame(cfg, input, 0, None).stop;
    if stop.Fault? {
      FaultInNumbers(cfg, input, 0, None);
    } else if stop.Cut? {
      CutInNumbers(cfg, input, 0, None);
    }
  }
}
